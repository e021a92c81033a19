# Makoto: a verified model of its algorithmic core

Makoto signs and verifies data provenance.  This project models the parts of it
that are written from scratch and proves what they promise:

* the **pattern engine**: a recursive-descent parser, a Thompson compiler that
  patches dangling pointers in place, and a breadth-first search with an
  operation budget, and what patterns find said of characters alone
  (`Pattern*.dfy`, `Decimal.dfy`);
* **Unicode NFC**: decomposition, canonical reordering, composition and Hangul
  arithmetic (`Unicode.dfy`, `UnicodeComposition.dfy`, `UnicodeFacts.dfy`);
* the **record Merkle tree**: roots, audit paths and the bit-shifting verifier
  (`Records.dfy`);
* the **statement graph**: edges, cycles, roots, heads and reachability
  (`Cycles.dfy`, `Graph.dfy`, `GraphFacts.dfy`, `Statements.dfy`);
* the **verifier's decision**, step by step over one mutable report, with the
  trust policy and the producer it has to agree with (`Policy.dfy`,
  `DatasetStep.dfy`, `Verifier.dfy`, `Safety.dfy`, `Materials.dfy`,
  `Producer.dfy`, `Agreement.dfy`), and the same results in the fields of the
  bundle (`PolicyFacts.dfy`, `DatasetFacts.dfy`, `RunFacts.dfy`,
  `ReportFacts.dfy`, `ProducerFacts.dfy`);
* the **DSSE encoding** and **Edwards25519 arithmetic** (`Dsse.dfy`,
  `Congruence.dfy`, `Edwards.dfy`, `EdwardsAlgebra.dfy`, `EdwardsLaw.dfy`,
  `EdwardsLadder.dfy`, `EdwardsExample.dfy`);
* the **SPDX recogniser** (`Licence.dfy`).

`dafny verify dfyconfig.toml` checks everything.

## How it is built

Code that works in place is a method or a class (the compiler's state table, the
parser's cursor, the cycle finder's stack and colours, the report, the token
cursor), proved against a specification; the promises are then theorems about the
specification.

* *Patterns.*  The grammar is a relation between text and trees that mentions no
  parser; a class is a caret or none and a list of single members and ranges
  (`PatternClass.ClassText`).  A syntax tree is lowered to a small program (`PatternLayout.Lower`)
  whose layout in the state table is a function (`Code`).  The compiler's methods
  are proved to build exactly that layout; `SpanRuns` and `RunSpans` relate runs
  of the table to the program; `LowerKeepsMeaning` relates the program to the
  tree.  A tree has two meanings: `Spans(node, true, …)` is the documented one,
  `Spans(node, false, …)` is the one in which an alternation branch that compiles
  to no states is dead, as in `a{0}|b`.  The search always decides the second.
  It decides the first for *forgiving* patterns, which are exactly those whose
  every part means what it says (`ForgivingIffFaithfulThroughout`).  For one
  alternation of faithful branches, anchored or not, the exact condition is proved
  in both directions (`AlternationFaithfulIff`): no branch is dead, or a live one
  matches empty without the help of an anchor.  The answers of the search are
  right on all values exactly if no branch is dead or what is compiled is found in
  every value (`AlternationSearchRightIff`).  By shape, a live branch that matches
  empty with one kind of anchor suffices, as in `^|a{0}`, and without one that
  matches the empty value the search fails there, as for `a{0}|^b$`
  (`AlternationSearchRightByShape`); the two shapes coincide when no branch is
  anchored at both ends (`OneSidedSearchRightIff`).
* *Independent statements.*  A specification function that a method calls cannot
  show that the method is right about what the function itself says.  `PatternText`
  and the modules named `…Facts` therefore state the main results a second time without
  the specification: in the characters of patterns and values, in code points
  written as numbers, and in the fields of statements, policies, requests,
  manifests and drafts, each as an equivalence.
* *Unicode.*  Tables are parameters.  `Unicode.Sound` collects three facts about
  them: decomposition is acyclic, no Hangul syllable or jamo is a key of it, and
  compositions invert two-element decompositions.  Equivalence results need only
  these.  That a normal form is fully composed also needs
  `UnicodeComposition.Stable`: composites and their first parts are starters, as
  are Hangul syllables and jamo, second parts do not decompose, and full
  decompositions of composites are canonically ordered.
* *Merkle.*  Digests are terms of a free algebra with separate leaf and node
  constructors: collision-free, domain-separated hashing.
* *Verifier.*  Files are a function from paths to readings; hashing, envelope
  decoding and dataset-manifest parsing are functions; signature results and
  profile outcomes are inputs.  `VerifyBundle` returns the report and a ghost trace
  of what each step computed; `Allowed` says in terms of the trace when a run
  allows, and `RunErrors` which errors its report lists, also when it denies.
  `Safety.dfy` derives what an allowed handoff guarantees, `RunFacts.AllowedInFields`
  and `ReportFacts.ReportInFields` state both in the fields of the bundle.
  SHA-256 digests are numbers in the order of their hexadecimal form.
* *Producer and verifier.*  The verifier's knowledge of the producer's dataset
  manifests is derived from step 8, not assumed.  A bundle that the producer
  wrote and that was delivered is allowed if and only if it is authorized as a
  whole, the remaining checks find nothing, and everything treated as a dataset
  manifest can be used as one (`Agreement.ProducedIsAllowedIff`).
* *Edwards.*  The field and the curve are parameters.  `IsComplete` asks for an odd
  prime modulus in which -1 is a square and d is not; Fermat's little theorem, the
  non-vanishing of all denominators, the closure of the curve under addition and
  its identity are proved.  Associativity is a hypothesis of the scalar
  multiplication theorem; all its hypotheses hold together on a curve of four
  points (`EdwardsExample.HypothesesHoldTogether`).

Four findings about the code:

* A branch without states is a dead pointer, not an empty match
  (`src/makoto/pattern.py:435-441`).  The pattern `a{0}|b` is not found in the
  empty string: `DeadBranchCounterexample`; exactly when it matters:
  `AlternationFaithfulIff`, `AlternationSearchRightIff`.
* What stands behind `WITH` (`src/makoto/licence.py:74-78`) may be `AND`, `OR` or
  `WITH` itself, and an identifier with a trailing `+`.  Annex D of SPDX 2.3 allows
  neither: `OperatorBehindWith`, `PlusBehindWith` (for `MIT WITH GPL-2.0+`:
  `PlusCounterexample`).  An accepted token sequence has
  the form of Annex D if and only if every token behind `WITH` is an identifier
  without `+`: `AnnexDIff`.  (That identifiers occur in the lists of Annex A is not
  checked by the code and not part of the model.)
* The cycle search marks whole cycles, and a member of every cycle, but not every
  member (`src/makoto/graph.py:217-238`): `CycleMembers`, `UnmarkedMember`.  It
  marks every member of a cycle that is covered by all cycles it meets, so all
  members if cycles that share a node have the same nodes: `CoveredCycleIsMarked`,
  `ApartCyclesAreMarked`.  The condition is sufficient only: `OverlappingMarked`.
* The producer asks a final artifact with the media type of dataset manifests for
  no core profile (`src/makoto/bundle.py:308-323`), which step 8 requires
  (`src/makoto/bundle.py:1793-1804`), so it writes bundles that no verifier allows:
  `BareIsProduced`, `BareIsDenied`; exactly which: `ProducedIsAllowedIff`.

## Model

| member | source | states |
|---|---|---|
| PatternGrammar.QuantifierSound | src/makoto/pattern.py:246-286 | what the quantifier routine accepts is spelled `?`, `*`, `+`, `{n}`, `{n,}` or `{n,m}` with canonical numerals and n <= m <= 1000 |
| PatternGrammar.QuantifierComplete | src/makoto/pattern.py:246-286 | every such spelling is accepted with exactly its bounds and consumed exactly |
| PatternClass.TokensIff | src/makoto/pattern.py:192-210 | the token loop reads exactly the text that spells these tokens, escapes included, up to a closing bracket |
| PatternClass.GroupIff | src/makoto/pattern.py:214-234 | the grouping loop returns the members and ranges of a list of single items and ranges that spells the tokens, and fails if there is none |
| PatternClass.ClassIff | src/makoto/pattern.py:187-234 | a class is parsed to a node if and only if the text is brackets around an optional caret and at least one item, with the node's members, ranges and negation; a range has unescaped ASCII end points in order |
| PatternGrammar.ParseIffGrammar | src/makoto/pattern.py:101-289 | the parser returns a tree for the whole pattern if and only if the grammar derives the pattern as that tree; so each pattern has at most one reading, and parsing consumes all input |
| PatternWellFormed.ParsedIsWellFormed | src/makoto/pattern.py:101-184 | every parsed tree has no repeat under a repeat, anchors only at the ends of root alternatives, bounds in order and at most 1000 |
| PatternWellFormed.BodyConsumes | src/makoto/pattern.py:140-152 | a body that the parser lets be repeated consumes at least one character in every match |
| PatternEngine.Parser.Escaped | src/makoto/pattern.py:236-244 | the cursor method returns and consumes what its specification says, or fails |
| PatternEngine.Parser.DecimalBound | src/makoto/pattern.py:276-286 | the digit loop reads exactly the maximal canonical numeral up to 1000 |
| PatternEngine.Parser.Quantifier | src/makoto/pattern.py:246-274 | the quantifier at the cursor agrees with the specification, errors included |
| PatternEngine.Parser.ClassTokens | src/makoto/pattern.py:192-210 | the token loop returns the tokens that the text up to the bracket spells and stops behind it |
| PatternEngine.Parser.Group | src/makoto/pattern.py:214-234 | the grouping loop returns the members and ranges of the items that the tokens spell, or fails if they spell none |
| PatternEngine.Parser.CharacterClass | src/makoto/pattern.py:187-234 | a class at the cursor is consumed and its node returned exactly if the text spells one |
| PatternEngine.Parser.Atom | src/makoto/pattern.py:154-185 | literal, dot, anchor, class, group or escape: the same tree, the same end, the same failures as specified |
| PatternEngine.Parser.Quantified | src/makoto/pattern.py:140-152 | an atom with its quantifier, nested repeats and second quantifiers refused as specified |
| PatternEngine.Parser.CheckAnchors | src/makoto/pattern.py:128-135 | the loop accepts exactly the sequences with `^` only first and `$` only last in a root alternative |
| PatternEngine.Parser.Alternative | src/makoto/pattern.py:118-138 | the item loop agrees with the specification of one alternative |
| PatternEngine.Parser.Alternation | src/makoto/pattern.py:109-116 | the branch loop agrees with the specification of an alternation |
| PatternEngine.Parser.ParseAll | src/makoto/pattern.py:101-107 | the whole parser computes the specified result, for empty and partly consumed patterns too |
| PatternLayout.LowerKeepsCount | src/makoto/pattern.py:298-315 | the static state count is exactly the size of the code, for every tree that can be compiled |
| PatternMeaning.StartsIffStates | src/makoto/pattern.py:403-485 | a fragment has a start if and only if its static state count is positive |
| PatternLayout.PatchCloses | src/makoto/pattern.py:479-481 | patching the dangling pointers of open code with a target yields the code closed on that target and changes no other state |
| PatternCompiler.Compiler.Add | src/makoto/pattern.py:483-485 | appends one state and returns its index |
| PatternCompiler.Compiler.Patch | src/makoto/pattern.py:479-481 | the in-place loop performs exactly the listed pointer updates |
| PatternCompiler.Compiler.Concat | src/makoto/pattern.py:471-477 | joining two adjacent fragments leaves the table holding the code of their sequence, empty fragments included |
| PatternCompiler.Compiler.CompileNode | src/makoto/pattern.py:417-444 | compiling a tree appends exactly its code and returns its fragment |
| PatternCompiler.Compiler.CompileAlternate | src/makoto/pattern.py:435-441 | branches are laid out in order and joined from the last |
| PatternCompiler.Compiler.JoinBranches | src/makoto/pattern.py:437-441 | the reversed loop of splits builds the nested alternation |
| PatternCompiler.Compiler.CompileRepeat | src/makoto/pattern.py:446-469 | all repetition shapes are unrolled into the code of their lowering |
| PatternCompiler.Compiler.CompileOptions | src/makoto/pattern.py:465-469 | the optional copies are appended one at a time |
| PatternCompiler.Compiler.CompileLoop | src/makoto/pattern.py:447-453 | a loop is its body closed on the split behind it, entered at the split for `*` and at the body for `+` |
| PatternCompiler.Compiler.Compile | src/makoto/pattern.py:407-415 | the finished table and start state are those of the machine of the tree |
| PatternMachine.SpanRuns | src/makoto/pattern.py:347-400 | every span of a program is a run of its laid-out code |
| PatternMachine.RunSpans | src/makoto/pattern.py:347-400 | every accepting run that enters laid-out code leaves it along a span of the program |
| PatternMeaning.LowerKeepsMeaning | src/makoto/pattern.py:417-469 | the lowered program has exactly the spans of the tree |
| PatternMeaning.SpanIsAccepted | src/makoto/pattern.py:403-485 | a match of the tree at a position is accepted by the machine there |
| PatternMeaning.AcceptedIsSpan | src/makoto/pattern.py:403-485 | what the machine accepts at a position is a match of the tree there |
| PatternSearch.AddState | src/makoto/pattern.py:347-377 | the closure loop keeps exactly what the state could accept, visits each state at most once, and exceeds only past the budget |
| PatternSearch.StepActive | src/makoto/pattern.py:383-398 | one character moves exactly the active states that can consume it, within n * n visits |
| PatternSearch.Search | src/makoto/pattern.py:342-400 | a returned answer is true if and only if the machine accepts from some position; with a budget of (L+1)n + L n^2 it always returns |
| PatternSearch.MachineIsLinked | src/makoto/pattern.py:494-503 | the table has exactly the static count plus one states, every pointer is in range, so the assertion of `compile_pattern` cannot fire |
| PatternSearch.SearchDecidesPattern | src/makoto/pattern.py:342-485 | the machine accepts from some position if and only if some substring matches, with `^` at 0 and `$` at the end |
| PatternDeadBranches.ForgivingAgrees | src/makoto/pattern.py:435-441 | without harmful dead branches the two meanings of a tree coincide |
| PatternDeadBranches.ForgivingIffFaithfulThroughout | src/makoto/pattern.py:435-441 | a pattern is forgiving if and only if each of its parts has the same matches when compiled as documented |
| PatternDeadBranches.SearchDecidesDocumentedMeaning | src/makoto/pattern.py:342-485 | for forgiving trees, so for all without a stateless branch, the search decides the documented meaning |
| PatternDeadBranches.EmptySpanIff | src/makoto/pattern.py:403-485 | a compiled pattern matches empty at a position if and only if its shape does, given the anchors that hold there |
| PatternDeadBranches.AlternationFaithfulIff | src/makoto/pattern.py:435-441 | an alternation of faithful branches, anchored or not, is compiled faithfully if and only if no branch is stateless or a live branch matches empty without an anchor |
| PatternDeadBranches.AlternationSearchRightIff | src/makoto/pattern.py:435-441 | for an alternation of faithful branches, anchored or not, the search is right on all values if and only if no branch is stateless or what is compiled is found in every value |
| PatternDeadBranches.AlternationSearchRightByShape | src/makoto/pattern.py:435-441 | it is right on all values if no branch is stateless or a live branch matches empty with at most one kind of anchor; it is wrong on the empty value if a branch is stateless and no live one matches the empty value |
| PatternDeadBranches.OneSidedSearchRightIff | src/makoto/pattern.py:435-441 | if no branch is anchored at both ends, the search is right on all values if and only if no branch is stateless or a live branch matches the empty value, anchors included |
| PatternEngine.CompilePattern | src/makoto/pattern.py:488-503 | length limit, syntax error, state limit and result, each in its case |
| PatternEngine.EngineDecidesPattern | src/makoto/pattern.py:101-503 | end to end: a pattern that spells a tree is parsed as it, its machine is linked and exact in size, and searching decides it |
| PatternEngine.DeadBranchCounterexample | src/makoto/pattern.py:435-441 | the string `a{0}\|b` is parsed, should match the empty string, and its machine does not accept there |
| PatternEngine.SearchPattern | src/makoto/pattern.py:342-503 | compile then search: any answer is right for the pattern string, in particular it is what the characters of the value say for texts, dots, classes, escapes, counted characters and choices (`IsRightAnswer`); within the three limits there is an answer |
| PatternText.TextFound | src/makoto/pattern.py:154-185 | a text without metacharacters and controls, perhaps behind `^` and in front of `$`, is found if and only if it stands in the value, at its start or end if so anchored |
| PatternText.DotFound | src/makoto/pattern.py:390-396 | `.` is found if and only if the value has a character other than CR and LF |
| PatternText.ClassNodeFound | src/makoto/pattern.py:390-396 | a class node is found if and only if some character is listed or in a range, or for a negated class is neither |
| PatternText.ClassFound | src/makoto/pattern.py:187-234 | the text of a class is found if and only if some character is in one of its items, or in none if it is negated |
| PatternText.SetFound | src/makoto/pattern.py:187-234 | `[text]` and `[^text]` are found if and only if some character is in the text, or not in it |
| PatternText.RangeFound | src/makoto/pattern.py:214-234 | `[a-b]` and `[^a-b]` are found if and only if some character lies between the bounds, or outside them |
| PatternText.EscapeFound | src/makoto/pattern.py:236-244 | `\c` is accepted outside classes for exactly 17 characters, and finds the tab, line feed, carriage return or the character itself |
| PatternText.CharacterAccepted | src/makoto/pattern.py:154-185 | a single character is a pattern if and only if it is `.`, `^`, `$` or neither a metacharacter nor a control |
| PatternText.CountedFound | src/makoto/pattern.py:246-274 | an anchored character with a quantifier is found if and only if the value is that character alone, as often as the spelled bounds allow |
| PatternText.ChoiceFound | src/makoto/pattern.py:109-116 | a choice of two texts is found if and only if one of them stands in the value |
| PatternText.MatchesIsRight | src/makoto/pattern.py:342-400 | both readings of a pattern give these answers |
| Decimal.CanonicalIsNumeral | src/makoto/pattern.py:276-286 | a canonical numeral is the decimal form of its value |
| Unicode.HangulInverse | src/makoto/unicode15.py:116-127 | a Hangul composite is a syllable whose arithmetic parts are those it was composed of; in numbers: `UnicodeFacts.HangulLaw` |
| Unicode.CompositeDecomposes | src/makoto/unicode15.py:116-127 | any composite, table or Hangul, decomposes to what its two parts decompose to |
| Unicode.ReorderOrders | src/makoto/unicode15.py:141-151 | the insertion loop produces a canonically ordered permutation |
| Unicode.ReorderIgnoresMarkOrder | src/makoto/unicode15.py:141-151 | adjacent marks of different non-zero classes may be swapped before reordering |
| Unicode.ComposeIsUndone | src/makoto/unicode15.py:155-172 | the composition loop is undone by decomposing and reordering, after every step |
| Unicode.NFCKeepsCanonical | src/makoto/unicode15.py:130-173 | the normal form has the same canonically ordered full decomposition as its input |
| Unicode.NFCIdempotent | src/makoto/unicode15.py:130-173 | normalizing twice is normalizing once |
| Unicode.NFCDecidesEquivalence | src/makoto/unicode15.py:130-173 | two strings normalize alike if and only if they are canonically equivalent |
| Unicode.NFCOfCanonical | src/makoto/unicode15.py:130-173 | the canonical decomposition is a fixed point and has the same normal form |
| Unicode.DecomposeScalar | src/makoto/unicode15.py:99-113 | the recursive procedure appends exactly the full decomposition to its output list |
| Unicode.DecomposeString | src/makoto/unicode15.py:137-139 | the first loop computes the full decomposition of the string |
| Unicode.InsertMark | src/makoto/unicode15.py:143-151 | the inner loop inserts behind the last element that must stay in front |
| Unicode.ReorderString | src/makoto/unicode15.py:141-151 | the second loop computes the canonical reordering |
| UnicodeComposition.ComposeSettles | src/makoto/unicode15.py:155-172 | after each step of the loop no starter has an unblocked later code point that composes with it |
| UnicodeComposition.NFCFullyComposed | src/makoto/unicode15.py:130-173 | in a normal form no starter has an unblocked later code point that composes with it |
| UnicodeComposition.DecompositionsAreNotComposed | src/makoto/unicode15.py:155-173 | the facts about tables hold together, and a canonical decomposition is not fully composed in general |
| UnicodeComposition.ComposeString | src/makoto/unicode15.py:155-172 | the third loop, with its overwritten starter, computes the composition; of canonically ordered atoms it is fully composed |
| UnicodeComposition.NormalizeNFC | src/makoto/unicode15.py:130-173 | the whole procedure returns the normal form; with sound tables it is canonically equivalent to the input and a fixed point, with stable ones fully composed |
| UnicodeFacts.HangulLaw | src/makoto/unicode15.py:36-127 | for l < 19, v < 21, k < 28 the jamo 0x1100 + l, 0x1161 + v and, unless k is 0, 0x11A7 + k normalize to 0xAC00 + (21 l + v) 28 + k, which decomposes to them and is its own normal form |
| UnicodeFacts.PairLaw | src/makoto/unicode15.py:130-173 | two code points that do not decompose and are no leading consonant and vowel are swapped if they are marks out of order, composed if the table has them as a pair, and kept otherwise |
| Records.SplitIsLargestPowerOfTwo | src/makoto/records.py:74-83 | the split point of the top-down tree is the largest power of two below n |
| Records.TopOfUp | src/makoto/records.py:78-82 | pairing a level, with the odd node promoted, keeps the top-down root |
| Records.TopPathOfUp | src/makoto/records.py:92-102 | an audit path is the sibling on this level, if any, followed by the path one level up |
| Records.MerkleRoot | src/makoto/records.py:74-83 | the bottom-up loop computes MTH of RFC 6962, for every non-empty list |
| Records.MerkleAuditPath | src/makoto/records.py:86-103 | the bottom-up loop computes PATH of RFC 6962, for every index in range; other indices are refused |
| Records.AscendIsClimb | src/makoto/records.py:171-187 | walking up by shifting index and last is climbing the top-down tree |
| Records.WalkUp | src/makoto/records.py:171-187 | the shifting loop over the path reaches a root exactly if the recursive walk does, and the same one |
| Records.VerifyInclusionProof | src/makoto/records.py:152-190 | the verification loop returns the verdict: schema, record bytes, too short a path, wrong root, or acceptance; a schema violation if and only if the index is not below the count, the count above 2^63 - 1 or the path longer than 63 |
| Records.HonestPathClimbs | src/makoto/records.py:86-103 | the audit path of every record has the expected length and leads to the root |
| Records.ExactPathIsHonest | src/makoto/records.py:175-190 | a path of the right length that reaches the root is the audit path, and its record is the one at that index |
| Records.OverlongPathMissesRoot | src/makoto/records.py:175-190 | no path that is too long reaches the root, although only a short one is tested for |
| Records.AcceptedIffHonest | src/makoto/records.py:152-190 | against the true root and count, a proof is accepted if and only if it is schema-valid and the honest proof of D[recordIndex] |
| Records.AuditPathLength | src/makoto/records.py:86-103 | for n >= 2 the path has length k >= 1 with 2^(k-1) < n |
| Records.HonestProofAccepted | src/makoto/records.py:114-190 | every honest proof of a countable list is accepted: the bound of 63 siblings never interferes |
| Records.CreateInclusionProof | src/makoto/records.py:114-149 | refuses indices out of range, otherwise returns the index, the count, the record and PATH of RFC 6962, which the verifier accepts |
| Cycles.CycleFinder.Visit | src/makoto/graph.py:222-233 | a visit finishes the node and everything it discovers, keeps old colours and marks, marks exactly what the recursive search marks, and preserves that marks lie on cycles and that each finished unmarked node stands behind its predecessors |
| Cycles.CycleFinder.FollowAll | src/makoto/graph.py:225-231 | the loop over predecessors does what the recursive search does and leaves each present one finished, unless the current node is marked |
| Cycles.CycleFinder.Follow | src/makoto/graph.py:226-231 | one predecessor: ignored if absent, visited if new, and a cycle marked if it is on the stack |
| Cycles.CycleFinder.MarkFrom | src/makoto/graph.py:230-231 | the stack from a repeated node on is marked, nothing else is, and all of it lies on a cycle |
| Cycles.CycleIsMarked | src/makoto/graph.py:217-238 | once every node is finished, each cycle has a marked node |
| Cycles.CycleMembers | src/makoto/graph.py:217-238 | every marked node lies on a cycle that is marked altogether, every cycle has a marked node, none is marked if and only if the graph is acyclic, all cycle members are marked if cycles that share a node have the same nodes; the marks are those of the recursive search |
| Cycles.CoveredCycleIsMarked | src/makoto/graph.py:217-238 | a cycle is marked altogether if every cycle that meets it covers it |
| Cycles.ApartCyclesAreMarked | src/makoto/graph.py:217-238 | if cycles that share a node have the same nodes, the marked nodes are exactly those on cycles |
| Cycles.OverlappingMarked | src/makoto/graph.py:222-233 | that condition is not necessary: two cycles that share one node can both be marked |
| Cycles.UnmarkedMember | src/makoto/graph.py:222-233 | a node on a cycle that overlaps another is not marked |
| Graph.ReachableFromHeads | src/makoto/graph.py:203-214 | the sorted least set that contains the heads and is closed under predecessors, absent ones included |
| Graph.LinkInput | src/makoto/graph.py:104-171 | one input: its problem, if any, and the subject it consumes even when the digest disagrees |
| Graph.LinkInputs | src/makoto/graph.py:93-172 | the predecessors, consumed subjects and problems of one statement's inputs, no more and no fewer |
| Graph.RecordEvent | src/makoto/graph.py:50-62 | a statement is a duplicate if and only if one with a smaller digest has the same event identifier |
| Graph.CheckStatement | src/makoto/graph.py:48-172 | the problems of one statement are exactly those it has |
| Graph.BuildGraph | src/makoto/graph.py:34-200 | predecessors, consumed subjects, roots and heads are the declared ones; every problem is reported exactly for the statements that have it, of every cycle at least one statement, and each statement reported for a cycle lies on one reported altogether |
| Graph.EdgesAgree | src/makoto/graph.py:104-171 | in a problem-free graph every input names a present statement with exactly one such subject, whose digest or dataset member it equals |
| GraphFacts.InputDefects | src/makoto/graph.py:104-171 | which code an input gets: missing predecessor, missing or ambiguous subject or unknown entry of a verified manifest, missing manifest, differing digest, or none if and only if it names a present statement with one such subject whose digest, or recorded entry, it has |
| GraphFacts.GraphInFields | src/makoto/graph.py:34-200 | the edges, consumed subjects, roots, heads and the code of every problem other than a cycle, in the fields of the statements |
| GraphFacts.GoodGraphHasNoProblem | src/makoto/graph.py:34-200 | the graph has no problem if and only if it is acyclic and all statements have one version, distinct events, and as transforms inputs, all good |
| GraphFacts.ReachedIff | src/makoto/graph.py:203-214 | what is reached is exactly what a path from a head ends at |
| Cycles.AcyclicWalksAreShort | src/makoto/graph.py:217-238 | in an acyclic graph no walk is longer than the number of statements |
| Graph.HistoryEndsAtOrigin | src/makoto/graph.py:34-200 | in a problem-free graph every backward walk is bounded, never leaves the bundle, and cannot be prolonged exactly at origins |
| Graph.WalkToOrigin | src/makoto/graph.py:34-200 | and every walk can be prolonged until it ends at an origin |
| Graph.HeadsReachEverything | src/makoto/graph.py:184-214 | in a problem-free graph whose statements have subjects, the heads reach exactly all statements |
| Policy.ComputePassing | src/makoto/policy.py:185-190 | the identifiers that made a passing signature and are valid at the evaluation time |
| Policy.AuthorizeHandoff | src/makoto/policy.py:277-300 | authorized if and only if enough distinct authorized signers pass |
| Policy.AuthorizeStatement | src/makoto/policy.py:177-205 | the candidates are exactly the rules that match and whose threshold is met |
| Policy.FinalizeAuthorization | src/makoto/policy.py:235-275 | a candidate authorizes if and only if each of its digest-pinned constraints is met by the first profile it matches |
| PolicyFacts.HandoffAuthorizedIff | src/makoto/policy.py:277-300 | a handoff is authorized if and only if at least minimumSignatures distinct listed signers each have a passing signature and are keyless or inside their validity window |
| PolicyFacts.AuthorizesIff | src/makoto/policy.py:177-275 | a rule is a candidate if and only if it lists the predicate type, its selectors contain the source kind, source address and operation type, each constraint names a profile with its id, target and digests, and enough listed signers have signed; it authorizes if and only if also the first such profile of each pinned constraint has passed |
| PolicyFacts.StatementAuthorizedIff | src/makoto/policy.py:177-340 | a statement is authorized if and only if some rule admits it in this sense |
| DatasetStep.CollectCandidates | src/makoto/bundle.py:1677-1749 | candidates are exactly the manifests that edges or entries require or that profiles or final artifacts suggest, and a required one stays required |
| DatasetStep.CheckCandidate | src/makoto/bundle.py:1785-1925 | one candidate is accepted, ignored or rejected as judged, and a rejection adds exactly one error for it |
| DatasetStep.Prevalidate | src/makoto/bundle.py:1656-1939 | memberships, verified subjects and snapshots come from accepted or parsed manifests only and from all of them; errors are added if and only if something was rejected, one for each, with its code |
| DatasetFacts.CandidatesIff | src/makoto/bundle.py:1677-1749 | a subject is required as a manifest if and only if an input of an authorized statement names an entry of it or an entry of it is supplied, and suggested if and only if a profile or a final artifact says so; it is the last subject of its name |
| DatasetFacts.OutcomeIs | src/makoto/bundle.py:1785-1925 | by what is read for it: no core profile, unreadable, changed, absent, other digest, conflicting media types, unparsable, each with its code, or ignored if unneeded, or accepted |
| DatasetFacts.Step8InFields | src/makoto/bundle.py:1656-1939 | what step 8 rejects, which manifests it verifies, which entries it records with which digests and which bytes it keeps |
| DatasetStep.MissingManifestWasRejected | src/makoto/bundle.py:1698-1925 | whenever the graph misses a dataset manifest, step 8 rejected that manifest subject |
| Verifier.LoadStatements | src/makoto/bundle.py:831-884 | the records are exactly the indexed envelopes that decode to their declared digest; exactly the others add their error |
| Verifier.AuthorizeRecord | src/makoto/bundle.py:889-955 | authorized if and only if some matching rule meets its threshold and its pinned profiles; adds exactly the errors of invalid signatures, of no candidate rule, or of candidates without passing profiles |
| Verifier.AuthorizeRecords | src/makoto/bundle.py:888-955 | the authorized set, and exactly the errors of all records |
| Verifier.RecordGraphProblems | src/makoto/bundle.py:997-1001 | adds its error, with code and step, for each problem other than a required dataset manifest, and no other |
| Verifier.FinalSubjects | src/makoto/bundle.py:1016-1050 | eligible are exactly the artifacts that are exact unconsumed subjects of a usable head; an error about each other one |
| Verifier.CheckGraph | src/makoto/bundle.py:979-1071 | steps 9 to 11 add no error if and only if the graph is clean, the signed sets equal the computed ones and all final subjects hold; otherwise exactly the errors of what fails |
| Verifier.CheckFinalBytes | src/makoto/bundle.py:1106-1202 | silent if and only if each eligible artifact is mapped and its bytes hash to the signed digest or were snapshotted; otherwise one code each for unmapped, absent, unreadable and differing bytes |
| Verifier.EvaluateFreshness | src/makoto/bundle.py:2829-2993 | silent if and only if the handoff is fresh in the fields of policy, request and manifest (`IsFreshHandoff`); otherwise exactly the code of each anchor that is asked for and fails |
| Verifier.FreshIff | src/makoto/bundle.py:2829-2993 | the anchors pass if and only if the expected manifest, heads, artifacts, recipient and nonce equal the signed ones where asked for, issuedAt - skew <= time <= issuedAt + maxAge where a maximum age is set, and something is asked for or replay is allowed |
| Verifier.VerifyBundle | src/makoto/bundle.py:563-1283 | the run allows if and only if every step, on what the earlier steps left, found nothing wrong, and its report lists exactly the errors of the steps; without a manifest it denies with the error of loading it |
| DatasetStep.Report.Finalize | src/makoto/report.py:170-171 | the decision is allow if and only if no error was recorded |
| Safety.DroppedProblemIsDenied | src/makoto/bundle.py:997-999 | dropping the required-manifest problem never turns a deny into an allow: step 8 had already found fault |
| Safety.AllowedGraphIsValid | src/makoto/bundle.py:979-1003 | the graph of an allowed run has no problem at all |
| Safety.AllowedSetsCoincide | src/makoto/bundle.py:974-1058 | in an allowed run the indexed, loaded, authorized, manifest-listed and head-reachable statements are one set, each with its declared digest, clean signatures and an authorizing rule |
| Safety.AllowImpliesSafe | src/makoto/bundle.py:835-1283 | allow implies a problem-free graph with exactly the manifest roots, which are origins; each final artifact an exact unconsumed subject of its loaded head with bytes of the signed digest; and a fresh handoff, in the fields of the request, the policy and the manifest |
| Safety.AllowedHistoryReachesRoot | src/makoto/bundle.py:974-1058 | from every statement of an allowed handoff a walk over authorized statements ends at a signed root |
| RunFacts.AuthorizedIff | src/makoto/bundle.py:889-955 | a loaded statement is authorized if and only if some rule admits it |
| RunFacts.EarlyInFields | src/makoto/bundle.py:720-976 | steps 5 to 8 are silent if and only if no signature is forged, enough signers of the handoff have signed, every indexed envelope decodes to its digest and is admitted, and every dataset manifest is usable or dispensable |
| RunFacts.LateInFields | src/makoto/bundle.py:979-1283 | then the rest is silent if and only if the graph is good and acyclic, the manifest lists exactly its statements, roots and heads, the artifacts have their bytes, and the handoff is fresh |
| RunFacts.AllowedInFields | src/makoto/bundle.py:563-1283 | the whole decision in fields: a run allows if and only if all of this holds |
| ReportFacts.ReportInFields | src/makoto/bundle.py:720-1283 | a diagnostic is in the report of a run, denied ones included, if and only if one of the steps finds it, each with its code, step and subject |
| ReportFacts.LearnedInFields | src/makoto/bundle.py:956-1003 | what step 8 of a run records, verifies and keeps, from the loaded and admitted statements alone |
| ReportFacts.ReachedInFields | src/makoto/bundle.py:979-995 | a run reaches exactly the statements behind listed heads that are loaded, listed and admitted |
| Materials.CollectMaterials | src/makoto/bundle.py:229-272 | succeeds if and only if every material is the only subject of its name with that digest, every manifest parses and declares the core profile, and no identity is repeated; then it knows the manifests' entries |
| Materials.ManifestRejectedIff | src/makoto/bundle.py:1785-1939 | step 8 looks at every delivered manifest of the producer and rejects it if and only if its profiles and the final artifacts declare more than one media type; otherwise it reads the producer's entries |
| Materials.Step8Knows | src/makoto/bundle.py:1656-1939 | everything that the producer's manifests say is among the memberships of step 8, if it rejects none of them |
| Producer.PrepareHandoff | src/makoto/bundle.py:227-338 | the producer fails on duplicate statements, mixed versions or bad materials; otherwise it succeeds if and only if its graph is problem-free, exactly reached from heads that are those of the final artifacts, and each final artifact is a terminal exact subject with one media type; the manifest lists exactly these sets |
| ProducerFacts.CollectibleInFields | src/makoto/bundle.py:227-272 | statements and materials are collected if and only if digests are distinct, versions agree, each material is the only subject of its name with that digest, manifests parse and declare the core profile, and no identity is repeated |
| ProducerFacts.AcceptsInFields | src/makoto/bundle.py:300-338 | the draft is accepted if and only if its heads are distinct and those of its final artifacts, the graph is good, acyclic and exactly reached, and each final artifact is a terminal exact subject all of whose declared media types are equal |
| ProducerFacts.KnownIff | src/makoto/bundle.py:250-273 | what the producer knows of an entry is what one of its manifests says |
| Producer.ValidWithMore | src/makoto/graph.py:93-199 | a graph without problems stays so, with the same edges and roots, when more dataset memberships are known |
| Agreement.WriteArtifacts | src/makoto/bundle.py:362-394 | the loops write every final artifact, and every other material under its identity unless that is already there |
| Agreement.VerifierKnows | src/makoto/bundle.py:1656-1939 | a verifier of the delivered bundle that rejects no manifest knows at least the producer's memberships |
| Agreement.VerifierAgrees | src/makoto/bundle.py:974-1058 | after the producer succeeded, a verifier that authorizes all statements and rejects no manifest finds no graph problem, complete sets and good final subjects |
| Agreement.ProducedIsAllowedIff | src/makoto/bundle.py:203-465 | a produced and delivered bundle is allowed if and only if all of it is authorized, signatures, loading, step 7, freshness and the unmodelled checks find nothing, and every subject that an edge, an entry, a profile or a final artifact makes a manifest declares the core profile and at most one media type and its bytes, which only an unneeded one may lack, have its digest and parse |
| Agreement.FinalWithoutProfileDenied | src/makoto/bundle.py:1793-1804 | a final artifact with the media type of manifests whose statement lacks the core profile is denied although the producer succeeded |
| Agreement.BareIsProduced | src/makoto/bundle.py:308-323 | the producer accepts a single origin without profiles whose subject is such a final artifact |
| Agreement.BareIsDenied | src/makoto/bundle.py:1793-1804 | no verifier allows that bundle |
| Dsse.PaeInjective | src/makoto/dsse.py:102-115 | equal encodings come from equal payload types and equal payloads, whatever bytes they hold |
| Dsse.PaeVector | tests/test_crypto.py:37-40 | for 28 and 2 bytes the encoding is `DSSEv1 28 `, the type, ` 2 ` and the payload |
| Congruence.InverseWorks | src/makoto/dsse.py:171-174 | the power that the source computes is an inverse of every value that is not a multiple of the prime |
| Edwards.AddRepresents | src/makoto/dsse.py:185-198 | extended addition stands for the affine sum whenever the arguments stand for affine points and the affine denominators do not vanish |
| EdwardsLaw.Ed25519Constants | src/makoto/dsse.py:17-20 | the prime is 2^255 - 19; the source's d is -121665/121666 and its root of -1 is one, both below the prime |
| EdwardsLaw.DenominatorsNeverVanish | src/makoto/dsse.py:185-186 | the addition is complete: no pair of curve points has a vanishing denominator |
| EdwardsLaw.SumUnique | src/makoto/dsse.py:207-208 | the affine sum is determined by its two defining congruences |
| EdwardsLaw.AffineAddCloses | src/makoto/dsse.py:207-208 | the sum of two curve points satisfies the defining congruences and lies on the curve |
| EdwardsLadder.FromExtendedRepresents | src/makoto/dsse.py:201-204 | leaving extended coordinates yields the canonical affine point, never the denominator error |
| EdwardsLadder.AddIsAffine | src/makoto/dsse.py:207-208 | the source's addition of two curve points succeeds and is the affine law |
| EdwardsLadder.ScalarMultiply | src/makoto/dsse.py:211-219 | the double-and-add loop runs the ladder; on a complete curve with an associative law it returns the n-fold sum of the point |
| EdwardsLadder.LadderRepresents | src/makoto/dsse.py:211-219 | whatever the accumulator and addend stand for, the rest of the loop adds the n-fold sum of the addend to the accumulator |
| EdwardsLadder.LadderIsNFold | src/makoto/dsse.py:211-219 | given associativity, scalar multiplication succeeds and is the n-fold sum of the point, for every n |
| EdwardsExample.HypothesesHoldTogether | src/makoto/dsse.py:185-219 | completeness, associativity and a point on the curve hold together for a concrete curve |
| Licence.Tokens.Take | src/makoto/licence.py:37-44 | advances by one token if it is there and is the expected one; otherwise fails in the right way and does not move |
| Licence.Tokens.TakePrimary | src/makoto/licence.py:64-78 | consumes what the specification of a primary says, or fails with its error |
| Licence.Tokens.TakeConjunction | src/makoto/licence.py:80-84 | the AND loop consumes a whole conjunction |
| Licence.Tokens.TakeDisjunction | src/makoto/licence.py:86-90 | the OR loop consumes a whole disjunction |
| Licence.ValidatedIffGrammar | src/makoto/licence.py:62-94 | the recogniser accepts a token sequence if and only if it is ORs of ANDs of primaries, with any identifier-shaped token without `LicenseRef-` behind WITH |
| Licence.ValidateExpression | src/makoto/licence.py:62-94 | the method decides that grammar |
| Licence.AnnexDIff | src/makoto/licence.py:62-94 | a token sequence has the form of Annex D of SPDX 2.3 if and only if it is accepted and every token behind WITH is an identifier without `+` |
| Licence.OperatorBehindWith | src/makoto/licence.py:74-78 | AND, OR or WITH is accepted as the exception behind WITH, which Annex D forbids |
| Licence.PlusBehindWith | src/makoto/licence.py:17-20 | so is every identifier with a trailing `+`, which Annex D allows for licences only |
| Licence.LocalLicenceRefused | src/makoto/licence.py:76-78 | no text with `LicenseRef-` anywhere in it is accepted behind WITH |

## Left out

- PatternDeadBranches.SearchDecidesDocumentedMeaning: `Forgiving` is exact for a tree all of whose parts are to be faithful, but not for the tree alone, because another part may supply the matches that a dead branch lost, as in `(a{0}|b)|c*` or `((a{0}|b)c|c)`; the exact condition for a tree is proved for one alternation over faithful branches.
- PatternDeadBranches.AlternationSearchRightByShape: between its two shapes, that is when a live branch matches the empty value but each such branch needs both anchors, no shape is given; there the exact condition is that of `AlternationSearchRightIff`.
- Cycles.CycleMembers: says when all members of cycles are marked in one direction only; whether members of overlapping cycles are marked depends on the order of the search.
- Verifier.VerifyBundle: historical materials, dataset entries, artifact profiles, required profiles and the final rescan appear as one list of errors that they add, and step 7's registries as profile outcomes and a list of errors.
- Verifier.AuthorizeRecords: steps 6 and 7 are combined per statement, so the order of errors of different statements differs from the code's; the report sorts errors before it is shown.
- EdwardsLadder.LadderIsNFold: associativity of the affine law is assumed; that 2^255 - 19 is prime and that d is not a square there are hypotheses too.
- Producer.PrepareHandoff: dataset-entry files, required profiles and schema closures are not modelled; of the writing of the bundle only which artifacts are written; that it fails is specified, but not which of several faults it names; the manifest lists the final artifacts in the order given, where the code sorts them and its schema refuses duplicates.
- Report wording, check statuses, warnings, summaries, paths and key identifiers in diagnostics, the sort order of errors and the primary error: they do not influence the decision; of a diagnostic the model has the code, the step and the statement or subject that it is about.
- File-system work, snapshots, rescans and atomic writes: operating-system behaviour; files are a function that may lack a path.
- SHA-256, SHA-512, key parsing, base64, RFC 8785, strict Ed25519 decoding and verification, sigstore: library calls or cryptographic assumptions.
- Core schemas: the model takes what they guarantee where the code relies on it (digests as keys, a record index below its count, at most 63 siblings).
- The predicate-type branch of the graph that a schema-valid statement cannot reach.
- The concrete Unicode tables, case folding and control characters beyond the pattern parser's own test.
- SPDX tokenisation and the remaining licence-claim checks: flat comparisons and a regular expression.
- Assurance profiles, dataset builders, statement builders, the command line, demos, benchmarks and release scripts.
- Error texts, Python recursion limits and memory.
