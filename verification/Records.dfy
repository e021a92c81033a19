/** Record Merkle commitments (src/makoto/records.py).

    A digest is an element of the free algebra of the two tagged tree hashes:
    this is the assumption that SHA-256 with the 0x00 and 0x01 prefixes has no
    collisions and keeps leaves and nodes apart.  `Raw` stands for every other
    32-byte string. */
module Records {
  import opened Wrappers

  datatype Digest = Raw(id: nat) | LeafHash(record: Digest) | NodeHash(left: Digest, right: Digest)

  datatype ProofError = EmptyTree | IndexOutOfRange | SchemaViolation | RecordMismatch | PathTooShort | RootMismatch

  // Bounds of the record-inclusion-proof schema.
  const MAX_INTEGER: nat := 9223372036854775807
  const MAX_PATH: nat := 63

  datatype InclusionProof = InclusionProof(
    recordIndex: int, recordCount: int, recordDigest: Digest, auditPath: seq<Digest>)

  // ---------------------------------------------------------------------
  // The tree of RFC 6962
  // ---------------------------------------------------------------------

  function Pow2(e: nat): (p: nat)
    ensures p >= 1
  {
    if e == 0 then 1 else 2 * Pow2(e - 1)
  }

  // The split point of section 2.1 of RFC 6962, "the largest power of two
  // smaller than n": see SplitIsLargestPowerOfTwo.
  function Split(n: nat): (k: nat)
    requires n >= 2
    ensures 1 <= k < n <= 2 * k
  {
    if n == 2 then 1 else 2 * Split((n + 1) / 2)
  }

  lemma {:induction false} SplitIsLargestPowerOfTwo(n: nat)
    requires n >= 2
    ensures exists e: nat :: Split(n) == Pow2(e) && Pow2(e) < n <= Pow2(e + 1)
  {
    if n == 2 {
      assert Split(n) == Pow2(0) && Pow2(1) == 2;
    } else {
      SplitIsLargestPowerOfTwo((n + 1) / 2);
      var e: nat :| Split((n + 1) / 2) == Pow2(e);
      assert Split(n) == Pow2(e + 1) && Pow2(e + 2) == 2 * Pow2(e + 1);
    }
  }

  // MTH(D[n]) of section 2.1 of RFC 6962, over record digests.
  function MTH(D: seq<Digest>): Digest
    requires |D| > 0
    decreases |D|
  {
    if |D| == 1 then LeafHash(D[0])
    else NodeHash(MTH(D[..Split(|D|)]), MTH(D[Split(|D|)..]))
  }

  // PATH(m, D[n]) of section 2.1.1 of RFC 6962.
  function PATH(m: nat, D: seq<Digest>): seq<Digest>
    requires m < |D|
    decreases |D|
  {
    if |D| == 1 then []
    else
      var k := Split(|D|);
      if m < k then PATH(m, D[..k]) + [MTH(D[k..])]
      else PATH(m - k, D[k..]) + [MTH(D[..k])]
  }

  // ---------------------------------------------------------------------
  // Levels: the same tree, bottom up
  // ---------------------------------------------------------------------

  function Leaves(D: seq<Digest>): seq<Digest> {
    seq(|D|, i requires 0 <= i < |D| => LeafHash(D[i]))
  }

  // One round of pairing; an odd last node is promoted unchanged.
  function Up(level: seq<Digest>): (next: seq<Digest>)
    ensures |next| == (|level| + 1) / 2
  {
    seq((|level| + 1) / 2, i requires 0 <= i < (|level| + 1) / 2 =>
      if 2 * i + 1 < |level| then NodeHash(level[2 * i], level[2 * i + 1]) else level[2 * i])
  }

  // The top-down tree over an already hashed level.
  function Top(level: seq<Digest>): Digest
    requires |level| > 0
    decreases |level|
  {
    if |level| == 1 then level[0]
    else NodeHash(Top(level[..Split(|level|)]), Top(level[Split(|level|)..]))
  }

  function TopPath(m: nat, level: seq<Digest>): seq<Digest>
    requires m < |level|
    decreases |level|
  {
    if |level| == 1 then []
    else
      var k := Split(|level|);
      if m < k then TopPath(m, level[..k]) + [Top(level[k..])]
      else TopPath(m - k, level[k..]) + [Top(level[..k])]
  }

  lemma {:induction false} TopOfLeaves(D: seq<Digest>)
    requires |D| > 0
    ensures Top(Leaves(D)) == MTH(D)
    decreases |D|
  {
    if |D| > 1 {
      var k := Split(|D|);
      assert Leaves(D)[..k] == Leaves(D[..k]) && Leaves(D)[k..] == Leaves(D[k..]);
      TopOfLeaves(D[..k]);
      TopOfLeaves(D[k..]);
    }
  }

  lemma {:induction false} TopPathOfLeaves(m: nat, D: seq<Digest>)
    requires m < |D|
    ensures TopPath(m, Leaves(D)) == PATH(m, D)
    decreases |D|
  {
    if |D| > 1 {
      var k := Split(|D|);
      assert Leaves(D)[..k] == Leaves(D[..k]) && Leaves(D)[k..] == Leaves(D[k..]);
      TopOfLeaves(D[..k]);
      TopOfLeaves(D[k..]);
      if m < k { TopPathOfLeaves(m, D[..k]); } else { TopPathOfLeaves(m - k, D[k..]); }
    }
  }

  // Pairing commutes with the top-level split as soon as there are three nodes.
  lemma {:induction false} UpSplits(level: seq<Digest>)
    requires |level| > 2
    ensures Split(|level|) == 2 * Split(|Up(level)|)
    ensures Up(level)[..Split(|Up(level)|)] == Up(level[..Split(|level|)])
    ensures Up(level)[Split(|Up(level)|)..] == Up(level[Split(|level|)..])
  {
    var k := Split(|level|);
    assert |Up(level)| == (|level| + 1) / 2;
  }

  lemma {:induction false} TopOfUp(level: seq<Digest>)
    requires |level| > 0
    ensures Top(Up(level)) == Top(level)
    decreases |level|
  {
    if |level| == 1 {
      assert Up(level) == level;
    } else if |level| == 2 {
      assert Up(level) == [NodeHash(level[0], level[1])];
    } else {
      UpSplits(level);
      TopOfUp(level[..Split(|level|)]);
      TopOfUp(level[Split(|level|)..]);
    }
  }

  // The sibling of node m on its own level, if it has one.
  function Sibling(m: nat, level: seq<Digest>): seq<Digest>
    requires m < |level|
  {
    if m % 2 == 1 then [level[m - 1]]
    else if m + 1 < |level| then [level[m + 1]]
    else []
  }

  lemma {:induction false} TopPathOfUp(m: nat, level: seq<Digest>)
    requires m < |level|
    ensures TopPath(m, level) == Sibling(m, level) + TopPath(m / 2, Up(level))
    decreases |level|
  {
    var k := if |level| == 1 then 1 else Split(|level|);
    if |level| == 1 {
      assert Up(level) == level;
    } else if |level| == 2 {
      assert Up(level) == [NodeHash(level[0], level[1])];
      assert level[..1] == [level[0]] && level[1..] == [level[1]];
    } else if m < k {
      TopPathOfUpLeft(m, level);
    } else {
      TopPathOfUpRight(m, level);
    }
  }

  lemma {:induction false} TopPathOfUpLeft(m: nat, level: seq<Digest>)
    requires |level| > 2 && m < Split(|level|)
    ensures TopPath(m, level) == Sibling(m, level) + TopPath(m / 2, Up(level))
    decreases |level|, 0
  {
    hide Top, TopPath, Up, Sibling;
    var k, up := Split(|level|), Up(level);
    UpSplits(level);
    TopOfUp(level[k..]);
    TopPathOfUp(m, level[..k]);
    SiblingOfPrefix(m, level, k);
    TopPathLeft(m, level, k);
    TopPathLeft(m / 2, up, Split(|up|));
  }

  lemma {:induction false} TopPathOfUpRight(m: nat, level: seq<Digest>)
    requires |level| > 2 && Split(|level|) <= m < |level|
    ensures TopPath(m, level) == Sibling(m, level) + TopPath(m / 2, Up(level))
    decreases |level|, 0
  {
    hide Top, TopPath, Up, Sibling;
    var k, up := Split(|level|), Up(level);
    UpSplits(level);
    TopOfUp(level[..k]);
    TopPathOfUp(m - k, level[k..]);
    SiblingOfSuffix(m, level, k);
    TopPathRight(m, level, k);
    TopPathRight(m / 2, up, Split(|up|));
  }

  lemma TopPathLeft(m: nat, level: seq<Digest>, k: nat)
    requires |level| > 1 && m < k == Split(|level|)
    ensures TopPath(m, level) == TopPath(m, level[..k]) + [Top(level[k..])]
  {
  }

  lemma TopPathRight(m: nat, level: seq<Digest>, k: nat)
    requires |level| > 1 && k == Split(|level|) <= m < |level|
    ensures TopPath(m, level) == TopPath(m - k, level[k..]) + [Top(level[..k])]
  {
  }

  lemma SiblingOfPrefix(m: nat, level: seq<Digest>, k: nat)
    requires m < k < |level| && k % 2 == 0
    ensures Sibling(m, level[..k]) == Sibling(m, level)
  {
  }

  lemma SiblingOfSuffix(m: nat, level: seq<Digest>, k: nat)
    requires k <= m < |level| && k % 2 == 0
    ensures Sibling(m - k, level[k..]) == Sibling(m, level)
    ensures (m - k) / 2 == m / 2 - k / 2
  {
  }

  // ---------------------------------------------------------------------
  // The producer: merkle_root and merkle_audit_path
  // ---------------------------------------------------------------------

  method HashLeaves(records: seq<Digest>) returns (level: seq<Digest>)
    ensures level == Leaves(records)
  {
    level := [];
    for i := 0 to |records|
      invariant level == Leaves(records[..i])
    {
      assert Leaves(records[..i + 1]) == Leaves(records[..i]) + [LeafHash(records[i])];
      level := level + [LeafHash(records[i])];
    }
    assert records[..|records|] == records;
  }

  method PairUp(level: seq<Digest>) returns (next: seq<Digest>)
    ensures next == Up(level)
  {
    next := [];
    var index := 0;
    while index < |level|
      invariant 0 <= index <= |level| + 1 && index % 2 == 0
      invariant |next| == index / 2 && next == Up(level)[..index / 2]
    {
      next := next + [if index + 1 < |level| then NodeHash(level[index], level[index + 1]) else level[index]];
      index := index + 2;
    }
  }

  method MerkleRoot(records: seq<Digest>) returns (r: Result<Digest, ProofError>)
    ensures records == [] ==> r == Err(EmptyTree)
    ensures records != [] ==> r == Ok(MTH(records))
  {
    if records == [] {
      return Err(EmptyTree);
    }
    TopOfLeaves(records);
    var level := HashLeaves(records);
    while |level| > 1
      invariant |level| > 0 && Top(level) == MTH(records)
      decreases |level|
    {
      TopOfUp(level);
      level := PairUp(level);
    }
    return Ok(level[0]);
  }

  lemma AuditStep(path: seq<Digest>, index: nat, level: seq<Digest>)
    requires index < |level|
    ensures path + TopPath(index, level) == path + Sibling(index, level) + TopPath(index / 2, Up(level))
  {
    TopPathOfUp(index, level);
  }

  method MerkleAuditPath(records: seq<Digest>, recordIndex: int) returns (r: Result<seq<Digest>, ProofError>)
    ensures !(0 <= recordIndex < |records|) ==> r == Err(IndexOutOfRange)
    ensures 0 <= recordIndex < |records| ==> r == Ok(PATH(recordIndex, records))
  {
    if !(0 <= recordIndex < |records|) {
      return Err(IndexOutOfRange);
    }
    TopPathOfLeaves(recordIndex, records);
    var level := HashLeaves(records);
    var index := recordIndex;
    var path := [];
    while |level| > 1
      invariant 0 <= index < |level|
      invariant path + TopPath(index, level) == PATH(recordIndex, records)
      decreases |level|
    {
      AuditStep(path, index, level);
      ghost var oldPath := path;
      var sibling := if index % 2 == 1 then index - 1 else index + 1;
      if sibling < |level| {
        path := path + [level[sibling]];
        assert path == oldPath + Sibling(index, level);
      } else {
        assert path == oldPath + Sibling(index, level);
      }
      assert path + TopPath(index / 2, Up(level)) == PATH(recordIndex, records);
      level := PairUp(level);
      index := index / 2;
    }
    assert path + [] == path;
    return Ok(path);
  }

  // ---------------------------------------------------------------------
  // The verifier
  // ---------------------------------------------------------------------

  // The number of siblings on the path of leaf m in a tree of n leaves.
  function Steps(m: nat, n: nat): (k: nat)
    requires m < n
    ensures n == 1 ==> k == 0
    ensures n > 1 ==> k > 0
    decreases n
  {
    if n == 1 then 0
    else 1 + if m < Split(n) then Steps(m, Split(n)) else Steps(m - Split(n), n - Split(n))
  }

  // The root that an audit path stands for, read from the top of the tree.
  // Siblings past the top are hashed in on the left.
  function Climb(m: nat, n: nat, path: seq<Digest>, value: Digest): Digest
    requires m < n && |path| >= Steps(m, n)
    decreases |path|
  {
    if path == [] then value
    else
      var rest, sibling := path[..|path| - 1], path[|path| - 1];
      if |path| > Steps(m, n) then NodeHash(sibling, Climb(m, n, rest, value))
      else if m < Split(n) then NodeHash(Climb(m, Split(n), rest, value), sibling)
      else NodeHash(sibling, Climb(m - Split(n), n - Split(n), rest, value))
  }

  // The verification loop level by level: a node without a sibling rises
  // without consuming one.  None means that the path ended below the root.
  function Ascend(path: seq<Digest>, index: nat, last: nat, value: Digest): Option<Digest>
    requires index <= last
    decreases last, |path|
  {
    if last == 0 then Some(Extra(path, value))
    else if index % 2 == 0 && index == last then Ascend(path, index / 2, last / 2, value)
    else if path == [] then None
    else Ascend(path[1..], index / 2, last / 2, Paired(index, path[0], value))
  }

  function Paired(index: nat, sibling: Digest, value: Digest): Digest {
    if index % 2 == 1 then NodeHash(sibling, value) else NodeHash(value, sibling)
  }

  function Extra(path: seq<Digest>, value: Digest): Digest {
    if path == [] then value else Extra(path[1..], NodeHash(path[0], value))
  }

  lemma {:induction false} ExtraFromTheTop(path: seq<Digest>, value: Digest)
    ensures Extra(path, value) == Climb(0, 1, path, value)
    decreases |path|
  {
    if |path| > 0 {
      var rest, top := path[..|path| - 1], path[|path| - 1];
      if |path| == 1 {
        assert rest == [] && path[1..] == [];
      } else {
        assert path[1..][..|path[1..]| - 1] == rest[1..];
        ExtraFromTheTop(path[1..], NodeHash(path[0], value));
        ExtraFromTheTop(rest[1..], NodeHash(path[0], value));
        ExtraFromTheTop(rest, value);
      }
    }
  }

  predicate HasSibling(m: nat, n: nat) {
    m % 2 == 1 || m + 1 < n
  }

  // How the split point of n nodes relates to that of the next level.
  lemma SplitHalves(n: nat)
    requires n > 2
    ensures Split(n) == 2 * Split((n + 1) / 2)
    ensures (Split(n) + 1) / 2 == Split(n) / 2 == Split((n + 1) / 2)
    ensures (n - Split(n) + 1) / 2 == (n + 1) / 2 - Split((n + 1) / 2)
  {
    hide Split;
    assert Split(n) == 2 * Split((n + 1) / 2) by { SplitDoubles(n); }
  }

  lemma SplitDoubles(n: nat)
    requires n > 2
    ensures Split(n) == 2 * Split((n + 1) / 2)
  {
  }

  lemma StepsUnfold(m: nat, n: nat)
    requires m < n && n > 1
    ensures Steps(m, n) == 1 + if m < Split(n) then Steps(m, Split(n)) else Steps(m - Split(n), n - Split(n))
  {
  }

  // Position and sibling of node m below an even split point.
  lemma HalvesBelow(m: nat, k: nat, n: nat)
    requires m < k < n && k % 2 == 0
    ensures m / 2 < k / 2 && HasSibling(m, k) == HasSibling(m, n)
  {
  }

  // ... and at or above it.
  lemma HalvesAbove(m: nat, k: nat, n: nat)
    requires k <= m < n && k % 2 == 0
    ensures m / 2 >= k / 2 && (m - k) / 2 == m / 2 - k / 2
    ensures HasSibling(m - k, n - k) == HasSibling(m, n) && (m - k) % 2 == m % 2
  {
  }

  lemma {:induction false} StepsUp(m: nat, n: nat)
    requires m < n
    ensures Steps(m, n) == (if HasSibling(m, n) then 1 else 0) + Steps(m / 2, (n + 1) / 2)
    decreases n, 1
  {
    if n > 2 {
      StepsUpStep(m, n);
    }
  }

  lemma {:induction false} StepsUpStep(m: nat, n: nat)
    requires m < n && n > 2
    ensures Steps(m, n) == (if HasSibling(m, n) then 1 else 0) + Steps(m / 2, (n + 1) / 2)
    decreases n, 0
  {
    hide Steps, Split, HasSibling;
    SplitHalves(n);
    StepsUnfold(m, n);
    StepsUnfold(m / 2, (n + 1) / 2);
    if m < Split(n) {
      HalvesBelow(m, Split(n), n);
      StepsUp(m, Split(n));
    } else {
      HalvesAbove(m, Split(n), n);
      StepsUp(m - Split(n), n - Split(n));
    }
  }

  // What is left of a path, and of the climb, one level up.
  function PathUp(m: nat, n: nat, path: seq<Digest>): seq<Digest> {
    if HasSibling(m, n) && path != [] then path[1..] else path
  }

  function ValueUp(m: nat, n: nat, path: seq<Digest>, value: Digest): Digest {
    if HasSibling(m, n) && path != [] then Paired(m, path[0], value) else value
  }

  lemma {:induction false} ClimbUp(m: nat, n: nat, path: seq<Digest>, value: Digest)
    requires m < n && |path| >= Steps(m, n)
    ensures |PathUp(m, n, path)| >= Steps(m / 2, (n + 1) / 2)
    ensures Climb(m, n, path, value) == Climb(m / 2, (n + 1) / 2, PathUp(m, n, path), ValueUp(m, n, path, value))
    decreases |path|, 1
  {
    StepsUp(m, n);
    if |path| > Steps(m, n) {
      ClimbUpExtra(m, n, path, value);
    } else if n > 2 {
      ClimbUpExact(m, n, path, value);
    }
  }

  lemma {:induction false} ClimbUpExtra(m: nat, n: nat, path: seq<Digest>, value: Digest)
    requires m < n && |path| > Steps(m, n)
    ensures |PathUp(m, n, path)| >= Steps(m / 2, (n + 1) / 2)
    ensures Climb(m, n, path, value) == Climb(m / 2, (n + 1) / 2, PathUp(m, n, path), ValueUp(m, n, path, value))
    decreases |path|, 0
  {
    hide Steps, Split, Climb, HasSibling;
    StepsUp(m, n);
    var rest := path[..|path| - 1];
    ClimbUp(m, n, rest, value);
    ClimbPast(m, n, path, value);
    ClimbPast(m / 2, (n + 1) / 2, PathUp(m, n, path), ValueUp(m, n, path, value));
    assert PathUp(m, n, path)[..|PathUp(m, n, path)| - 1] == PathUp(m, n, rest);
  }

  lemma ClimbPast(m: nat, n: nat, path: seq<Digest>, value: Digest)
    requires m < n && |path| > Steps(m, n)
    ensures Climb(m, n, path, value) == NodeHash(path[|path| - 1], Climb(m, n, path[..|path| - 1], value))
  {
  }

  lemma ClimbExact(m: nat, n: nat, path: seq<Digest>, value: Digest)
    requires m < n && n > 1 && |path| == Steps(m, n)
    ensures path != [] && Climb(m, n, path, value) ==
      if m < Split(n) then NodeHash(Climb(m, Split(n), path[..|path| - 1], value), path[|path| - 1])
      else NodeHash(path[|path| - 1], Climb(m - Split(n), n - Split(n), path[..|path| - 1], value))
  {
  }

  lemma {:induction false} ClimbUpExact(m: nat, n: nat, path: seq<Digest>, value: Digest)
    requires m < n && n > 2 && |path| == Steps(m, n)
    ensures |PathUp(m, n, path)| >= Steps(m / 2, (n + 1) / 2)
    ensures Climb(m, n, path, value) == Climb(m / 2, (n + 1) / 2, PathUp(m, n, path), ValueUp(m, n, path, value))
    decreases |path|, 0
  {
    hide Steps, Split, Climb, HasSibling;
    var k, path', value' := Split(n), PathUp(m, n, path), ValueUp(m, n, path, value);
    StepsUp(m, n);
    StepsUnfold(m, n);
    SplitHalves(n);
    StepsUnfold(m / 2, (n + 1) / 2);
    var rest := path[..|path| - 1];
    ClimbExact(m, n, path, value);
    ClimbExact(m / 2, (n + 1) / 2, path', value');
    if m < k {
      HalvesBelow(m, k, n);
      ClimbUp(m, k, rest, value);
      StepsUp(m, k);
      assert path'[..|path'| - 1] == PathUp(m, k, rest) && value' == ValueUp(m, k, rest, value);
    } else {
      HalvesAbove(m, k, n);
      ClimbUp(m - k, n - k, rest, value);
      StepsUp(m - k, n - k);
      assert path'[..|path'| - 1] == PathUp(m - k, n - k, rest) && value' == ValueUp(m - k, n - k, rest, value);
    }
  }

  lemma {:induction false} AscendIsClimb(path: seq<Digest>, m: nat, n: nat, value: Digest)
    requires m < n
    ensures Ascend(path, m, n - 1, value) ==
      if |path| < Steps(m, n) then None else Some(Climb(m, n, path, value))
    decreases n
  {
    hide Steps, Climb, Split;
    if n == 1 {
      ExtraFromTheTop(path, value);
    } else {
      StepsUp(m, n);
      if |path| >= Steps(m, n) {
        ClimbUp(m, n, path, value);
      }
      if path != [] || !HasSibling(m, n) {
        AscendIsClimb(PathUp(m, n, path), m / 2, (n + 1) / 2, ValueUp(m, n, path, value));
      }
    }
  }

  // What verify_record_inclusion_proof decides, in the order of its checks.
  function Verdict(proof: InclusionProof, expectedRoot: Digest, recordBytesDigest: Option<Digest>)
    : Result<(), ProofError>
  {
    if !SchemaValid(proof) then Err(SchemaViolation)
    else if recordBytesDigest.Some? && recordBytesDigest.value != proof.recordDigest then Err(RecordMismatch)
    else if |proof.auditPath| < Steps(proof.recordIndex, proof.recordCount) then Err(PathTooShort)
    else if Climb(proof.recordIndex, proof.recordCount, proof.auditPath, LeafHash(proof.recordDigest)) != expectedRoot
    then Err(RootMismatch)
    else Ok(())
  }

  predicate SchemaValid(proof: InclusionProof) {
    && 0 <= proof.recordIndex < proof.recordCount <= MAX_INTEGER
    && |proof.auditPath| <= MAX_PATH
  }

  lemma {:induction false} AscendEmpty(index: nat, last: nat, value: Digest)
    requires index <= last
    ensures Ascend([], index, last, value) == if last == 0 then Some(value) else None
    decreases last
  {
    if last > 0 && index % 2 == 0 && index == last {
      AscendEmpty(index / 2, last / 2, value);
    }
  }

  // The loop over the path: it ends at the root when nothing is left of `last`.
  method WalkUp(path: seq<Digest>, index0: nat, last0: nat, value0: Digest) returns (last: nat, value: Digest)
    requires index0 <= last0
    ensures Ascend(path, index0, last0, value0) == if last == 0 then Some(value) else None
  {
    var index := index0;
    last, value := last0, value0;
    ghost var whole := Ascend(path, index, last, value);
    assert path[0..] == path;
    for i := 0 to |path|
      invariant 0 <= index <= last
      invariant Ascend(path[i..], index, last, value) == whole
    {
      var sibling := path[i];
      assert path[i..][1..] == path[i + 1..];
      if index % 2 == 1 || index == last {
        value := NodeHash(sibling, value);
        if index == last {
          ghost var below := path[i..];
          ghost var unpaired := if last == 0 then whole else Ascend(below, index, last, value.right);
          while index != 0 && index % 2 == 0
            invariant 0 <= index == last
            invariant if last == 0 then unpaired == whole && Ascend(path[i + 1..], 0, 0, value) == whole
                      else Ascend(below, index, last, value.right) == whole
            decreases index
          {
            index := index / 2;
            last := last / 2;
          }
        }
      } else {
        value := NodeHash(value, sibling);
      }
      index := index / 2;
      last := last / 2;
    }
    assert path[|path|..] == [];
    AscendEmpty(index, last, value);
  }

  // `recordBytesDigest` is the SHA-256 of the record bytes, when they are supplied.
  method VerifyInclusionProof(proof: InclusionProof, expectedRoot: Digest, recordBytesDigest: Option<Digest>)
    returns (r: Result<(), ProofError>)
    ensures r == Verdict(proof, expectedRoot, recordBytesDigest)
    ensures r == Err(SchemaViolation) <==>
      !(0 <= proof.recordIndex < proof.recordCount <= 9223372036854775807 && |proof.auditPath| <= 63)
  {
    hide Ascend, Climb, Steps;
    if !(0 <= proof.recordIndex && 1 <= proof.recordCount <= MAX_INTEGER
         && proof.recordIndex < proof.recordCount && |proof.auditPath| <= MAX_PATH)
    {
      return Err(SchemaViolation);
    }
    if recordBytesDigest.Some? && recordBytesDigest.value != proof.recordDigest {
      return Err(RecordMismatch);
    }
    AscendIsClimb(proof.auditPath, proof.recordIndex, proof.recordCount, LeafHash(proof.recordDigest));
    var last, value := WalkUp(proof.auditPath, proof.recordIndex, proof.recordCount - 1, LeafHash(proof.recordDigest));
    if last != 0 {
      return Err(PathTooShort);
    }
    if value != expectedRoot {
      return Err(RootMismatch);
    }
    return Ok(());
  }

  // ---------------------------------------------------------------------
  // Main results
  // ---------------------------------------------------------------------

  lemma {:induction false} PathHasSteps(m: nat, D: seq<Digest>)
    requires m < |D|
    ensures |PATH(m, D)| == Steps(m, |D|)
    decreases |D|
  {
    if |D| > 1 {
      if m < Split(|D|) { PathHasSteps(m, D[..Split(|D|)]); } else { PathHasSteps(m - Split(|D|), D[Split(|D|)..]); }
    }
  }

  lemma TreeUnfold(D: seq<Digest>)
    requires |D| > 1
    ensures MTH(D) == NodeHash(MTH(D[..Split(|D|)]), MTH(D[Split(|D|)..]))
  {
    hide Split;
  }

  lemma PathUnfold(m: nat, D: seq<Digest>)
    requires m < |D| && |D| > 1
    ensures PATH(m, D) == if m < Split(|D|) then PATH(m, D[..Split(|D|)]) + [MTH(D[Split(|D|)..])]
                          else PATH(m - Split(|D|), D[Split(|D|)..]) + [MTH(D[..Split(|D|)])]
  {
    hide Split, MTH;
  }

  lemma SingleLeaf(D: seq<Digest>, value: Digest)
    requires |D| == 1
    ensures Steps(0, 1) == 0 && Climb(0, 1, [], value) == value && PATH(0, D) == [] && MTH(D) == LeafHash(D[0])
  {
  }

  // Completeness: the honest path leads to the root, for every record.
  lemma {:induction false} HonestPathClimbs(m: nat, D: seq<Digest>)
    requires m < |D|
    ensures |PATH(m, D)| == Steps(m, |D|)
    ensures Climb(m, |D|, PATH(m, D), LeafHash(D[m])) == MTH(D)
    decreases |D|
  {
    hide MTH, PATH, Split, Steps, Climb;
    PathHasSteps(m, D);
    if |D| == 1 {
      SingleLeaf(D, LeafHash(D[0]));
    } else {
      var k, path := Split(|D|), PATH(m, D);
      TreeUnfold(D);
      PathUnfold(m, D);
      ClimbExact(m, |D|, path, LeafHash(D[m]));
      if m < k {
        assert path[..|path| - 1] == PATH(m, D[..k]);
        HonestPathClimbs(m, D[..k]);
      } else {
        assert path[..|path| - 1] == PATH(m - k, D[k..]);
        HonestPathClimbs(m - k, D[k..]);
      }
    }
  }

  method CreateInclusionProof(records: seq<Digest>, recordIndex: int) returns (r: Result<InclusionProof, ProofError>)
    ensures !(0 <= recordIndex < |records|) ==> r == Err(IndexOutOfRange)
    ensures 0 <= recordIndex < |records| && |records| > MAX_INTEGER ==> r == Err(SchemaViolation)
    ensures 0 <= recordIndex < |records| <= MAX_INTEGER ==>
      && r == Ok(InclusionProof(recordIndex, |records|, records[recordIndex], PATH(recordIndex, records)))
      && Verdict(r.value, MTH(records), Some(records[recordIndex])) == Ok(())
  {
    if !(0 <= recordIndex < |records|) {
      return Err(IndexOutOfRange);
    }
    var path := MerkleAuditPath(records, recordIndex);
    var proof := InclusionProof(recordIndex, |records|, records[recordIndex], path.value);
    if |records| <= MAX_INTEGER {
      HonestProofAccepted(recordIndex, records);
    }
    if !SchemaValid(proof) {
      return Err(SchemaViolation);
    }
    return Ok(proof);
  }

  // A path of exactly the right length that reaches the root is the honest one.
  lemma {:induction false} ExactPathIsHonest(m: nat, D: seq<Digest>, path: seq<Digest>, record: Digest)
    requires m < |D| && |path| == Steps(m, |D|)
    requires Climb(m, |D|, path, LeafHash(record)) == MTH(D)
    ensures record == D[m] && path == PATH(m, D)
    decreases |D|, 1
  {
    hide MTH, PATH, Split, Steps, Climb;
    if |D| == 1 {
      SingleLeaf(D, LeafHash(record));
    } else {
      var k, rest := Split(|D|), path[..|path| - 1];
      StepsUnfold(m, |D|);
      TreeUnfold(D);
      PathUnfold(m, D);
      ClimbExact(m, |D|, path, LeafHash(record));
      assert path == rest + [path[|path| - 1]];
      ExactPathBelow(m, D, rest, record);
    }
  }

  lemma {:induction false} ExactPathBelow(m: nat, D: seq<Digest>, rest: seq<Digest>, record: Digest)
    requires m < |D| && |D| > 1 && |rest| + 1 == Steps(m, |D|)
    requires m < Split(|D|) ==> Climb(m, Split(|D|), rest, LeafHash(record)) == MTH(D[..Split(|D|)])
    requires m >= Split(|D|) ==>
      Climb(m - Split(|D|), |D| - Split(|D|), rest, LeafHash(record)) == MTH(D[Split(|D|)..])
    ensures record == D[m]
    ensures m < Split(|D|) ==> rest == PATH(m, D[..Split(|D|)])
    ensures m >= Split(|D|) ==> rest == PATH(m - Split(|D|), D[Split(|D|)..])
    decreases |D|, 0
  {
    hide MTH, PATH, Split, Steps, Climb;
    StepsUnfold(m, |D|);
    if m < Split(|D|) {
      ExactPathIsHonest(m, D[..Split(|D|)], rest, record);
    } else {
      ExactPathIsHonest(m - Split(|D|), D[Split(|D|)..], rest, record);
    }
  }

  // The height of a hash term, the bound that refutes over-long paths on the left.
  function Height(d: Digest): (h: nat) {
    match d
    case NodeHash(l, r) => 1 + if Height(l) >= Height(r) then Height(l) else Height(r)
    case _ => 0
  }

  lemma {:induction false} ClimbHeight(m: nat, n: nat, path: seq<Digest>, value: Digest)
    requires m < n && |path| >= Steps(m, n)
    ensures Height(Climb(m, n, path, value)) >= |path|
    decreases |path|
  {
    if path != [] {
      var rest := path[..|path| - 1];
      if |path| > Steps(m, n) { ClimbHeight(m, n, rest, value); }
      else if m < Split(n) { ClimbHeight(m, Split(n), rest, value); }
      else { ClimbHeight(m - Split(n), n - Split(n), rest, value); }
    }
  }

  lemma LeafHeight(D: seq<Digest>)
    requires |D| == 1
    ensures Height(MTH(D)) == 0
  {
  }

  lemma {:induction false} RootHeight(D: seq<Digest>, e: nat)
    requires 0 < |D| <= Pow2(e)
    ensures Height(MTH(D)) <= e
    decreases |D|
  {
    hide Split, MTH, Pow2;
    if |D| == 1 {
      LeafHeight(D);
    } else {
      TreeUnfold(D);
      SplitIsLargestPowerOfTwo(|D|);
      var f: nat :| Split(|D|) == Pow2(f) && Pow2(f) < |D|;
      Pow2Monotone(f, e);
      RootHeight(D[..Split(|D|)], e - 1);
      RootHeight(D[Split(|D|)..], e - 1);
    }
  }

  lemma {:induction false} Pow2Monotone(e: nat, f: nat)
    requires Pow2(e) < Pow2(f)
    ensures e < f && Pow2(e) <= Pow2(f - 1)
  {
    if e > 0 && f > 0 {
      Pow2Monotone(e - 1, f - 1);
    }
  }

  lemma {:induction false} FullTreeSteps(m: nat, e: nat)
    requires m < Pow2(e)
    ensures Steps(m, Pow2(e)) == e
  {
    if e > 0 {
      SplitOfPow2(e);
      FullTreeSteps(if m < Pow2(e - 1) then m else m - Pow2(e - 1), e - 1);
    }
  }

  lemma {:induction false} SplitOfPow2(e: nat)
    requires e > 0
    ensures Split(Pow2(e)) == Pow2(e - 1)
  {
    if e > 1 {
      SplitOfPow2(e - 1);
    }
  }

  // Descending to the right half of the tree drops the last sibling's choice.
  lemma {:induction false} ClimbRight(m: nat, n: nat, path: seq<Digest>, value: Digest)
    requires 1 < n && Split(n) <= m < n && |path| >= Steps(m, n)
    ensures Climb(m, n, path, value) == Climb(m - Split(n), n - Split(n), path, value)
    decreases |path|
  {
    if |path| > Steps(m, n) {
      ClimbRight(m, n, path[..|path| - 1], value);
    }
  }

  // The code never tests for a path that is too long; the root does.
  lemma {:induction false} OverlongPathMissesRoot(m: nat, D: seq<Digest>, path: seq<Digest>, record: Digest)
    requires m < |D| && |path| > Steps(m, |D|)
    ensures Climb(m, |D|, path, LeafHash(record)) != MTH(D)
    decreases |D|
  {
    if |D| > 1 {
      var k, rest := Split(|D|), path[..|path| - 1];
      if Climb(m, |D|, path, LeafHash(record)) == MTH(D) {
        assert Climb(m, |D|, rest, LeafHash(record)) == MTH(D[k..]);
        if m < k {
          SplitIsLargestPowerOfTwo(|D|);
          var e: nat :| k == Pow2(e);
          FullTreeSteps(m, e);
          RootHeight(D[k..], e);
          ClimbHeight(m, |D|, rest, LeafHash(record));
        } else {
          ClimbRight(m, |D|, rest, LeafHash(record));
          OverlongPathMissesRoot(m - k, D[k..], rest, record);
        }
      }
    }
  }

  // Section 2.1.3.2 of RFC 9162: against the true root of D, a schema-valid
  // proof is accepted if and only if it is the honest proof of D[recordIndex].
  lemma {:induction false} AcceptedIffHonest(proof: InclusionProof, D: seq<Digest>, recordBytesDigest: Option<Digest>)
    requires proof.recordCount == |D| > 0
    ensures Verdict(proof, MTH(D), recordBytesDigest).Ok? <==>
      && SchemaValid(proof)
      && proof.recordDigest == D[proof.recordIndex]
      && proof.auditPath == PATH(proof.recordIndex, D)
      && (recordBytesDigest.Some? ==> recordBytesDigest.value == D[proof.recordIndex])
  {
    hide MTH, PATH, Split, Steps, Climb;
    if SchemaValid(proof) {
      var m, path := proof.recordIndex, proof.auditPath;
      HonestPathClimbs(m, D);
      if |path| > Steps(m, |D|) {
        OverlongPathMissesRoot(m, D, path, proof.recordDigest);
      } else if |path| == Steps(m, |D|) && Climb(m, |D|, path, LeafHash(proof.recordDigest)) == MTH(D) {
        ExactPathIsHonest(m, D, path, proof.recordDigest);
      }
    }
  }

  // An audit path of a tree of n >= 2 leaves has length k with 2^(k-1) < n.
  lemma {:induction false} AuditPathLength(m: nat, n: nat)
    requires m < n && n >= 2
    ensures Steps(m, n) >= 1 && Pow2(Steps(m, n) - 1) < n
    decreases n
  {
    var k := Split(n);
    if m < k {
      SplitIsLargestPowerOfTwo(n);
      var e: nat :| k == Pow2(e);
      FullTreeSteps(m, e);
    } else if n - k > 1 {
      AuditPathLength(m - k, n - k);
    }
  }

  lemma HonestPathFits(m: nat, n: nat)
    requires m < n <= MAX_INTEGER && n >= 2
    ensures Steps(m, n) <= MAX_PATH
  {
    hide Steps, Pow2;
    AuditPathLength(m, n);
    if Steps(m, n) > MAX_PATH {
      Pow2Grows(MAX_PATH, Steps(m, n) - 1);
      Pow2Of63();
    }
  }

  // Create, then verify: every proof of a set that the schema can count is
  // accepted, so the schema's bound of 63 siblings never rejects an honest one.
  lemma {:induction false} HonestProofAccepted(m: nat, D: seq<Digest>)
    requires m < |D| <= MAX_INTEGER
    ensures Verdict(InclusionProof(m, |D|, D[m], PATH(m, D)), MTH(D), Some(D[m])) == Ok(())
  {
    hide MTH, PATH, Split, Steps, Climb, Pow2;
    PathHasSteps(m, D);
    if |D| >= 2 {
      HonestPathFits(m, |D|);
    } else {
      SingleLeaf(D, LeafHash(D[0]));
    }
    AcceptedIffHonest(InclusionProof(m, |D|, D[m], PATH(m, D)), D, Some(D[m]));
  }

  lemma {:induction false} Pow2Grows(e: nat, f: nat)
    requires e <= f
    ensures Pow2(e) <= Pow2(f)
    decreases f
  {
    if e < f {
      Pow2Grows(e, f - 1);
    }
  }

  lemma Pow2Of63()
    ensures Pow2(63) == MAX_INTEGER + 1
  {
    Pow2Of21(21);
    Pow2Product(21, 21);
    Pow2Product(42, 21);
  }

  lemma Pow2Of21(e: nat)
    requires e == 21
    ensures Pow2(e) == 2097152
  {
    Pow2Product(7, 7);
    Pow2Product(14, 7);
  }

  lemma {:induction false} Pow2Product(e: nat, f: nat)
    ensures Pow2(e + f) == Pow2(e) * Pow2(f)
  {
    if f > 0 {
      Pow2Product(e, f - 1);
    }
  }
}
