/** core_runtime/core/rule_anchor.py: the Merkle tree over the entries of a rule batch, the proofs
    handed out with it, and what an accepted proof or a root pins down. */
module RuleAnchor {
  import opened Hashing
  import opened Results
  import opened Ordering
  import opened Canonicalization
  import opened Utf8

  type Bytes = seq<int>

  // ---- Fingerprints ----------------------------------------------------------------

  predicate IsHex(c: char) { '0' <= c <= '9' || 'a' <= c <= 'f' }

  function Nibble(c: char): (n: int)
    ensures 0 <= n < 16
  {
    if '0' <= c <= '9' then c as int - '0' as int
    else if 'a' <= c <= 'f' then c as int - 'a' as int + 10
    else 0
  }

  /** sha256: and 64 lowercase hexadecimal digits. */
  predicate IsFingerprint(f: string) {
    |f| == 71 && f[..7] == "sha256:" && forall i :: 7 <= i < 71 ==> IsHex(f[i])
  }

  /** fingerprint_bytes; only fingerprints have any. */
  function FingerprintBytes(f: string): (r: Bytes)
    ensures |f| == 71 ==> |r| == 32 && forall i :: 0 <= i < 32 ==>
              r[i] == 16 * Nibble(f[7 + 2 * i]) + Nibble(f[8 + 2 * i])
  {
    if |f| == 71 then seq(32, i requires 0 <= i < 32 => 16 * Nibble(f[7 + 2 * i]) + Nibble(f[8 + 2 * i])) else []
  }

  lemma BytesPinFingerprint(f: string, g: string)
    requires IsFingerprint(f) && IsFingerprint(g) && FingerprintBytes(f) == FingerprintBytes(g)
    ensures f == g
  {
    forall i | 7 <= i < 71 ensures f[i] == g[i] {
      var j := (i - 7) / 2;
      assert FingerprintBytes(f)[j] == FingerprintBytes(g)[j];
      assert Nibble(f[7 + 2 * j]) == Nibble(g[7 + 2 * j]) && Nibble(f[8 + 2 * j]) == Nibble(g[8 + 2 * j]);
      assert i == 7 + 2 * j || i == 8 + 2 * j;
      assert IsHex(f[i]) && IsHex(g[i]);
    }
    forall i | 0 <= i < 7 ensures f[i] == g[i] { assert f[..7][i] == g[..7][i]; }
  }

  /** A hash that answers with fingerprints. */
  ghost predicate Fingerprints(sha256: Bytes -> string) {
    forall x :: IsFingerprint(sha256(x))
  }

  /** No text of one kind is taken for another of the other kind. */
  ghost predicate CollisionFree(sha256: Bytes -> string, a: set<Bytes>, b: set<Bytes>) {
    forall x, y :: x in a && y in b ==> NoCollision(sha256, x, y)
  }

  // ---- What is hashed --------------------------------------------------------------

  /** The prefixes of the hashed texts begin with different bytes. */
  function LeafDomain(): Bytes { [0] + Points("CORE_RULE_ANCHOR_LEAF_V1") + [0] }

  function NodeDomain(): Bytes { [1] + Points("CORE_RULE_ANCHOR_NODE_V1") + [0] }

  function LeafText(leaf: Bytes): Bytes { LeafDomain() + leaf }

  function NodeText(left: string, right: string): Bytes {
    NodeDomain() + (FingerprintBytes(left) + FingerprintBytes(right))
  }

  function LeafHash(sha256: Bytes -> string, leaf: Bytes): string { sha256(LeafText(leaf)) }

  function ParentHash(sha256: Bytes -> string, left: string, right: string): string { sha256(NodeText(left, right)) }

  lemma DomainsDiffer(leaf: Bytes, left: string, right: string)
    ensures LeafText(leaf) != NodeText(left, right)
  {
    assert LeafText(leaf)[0] == 0 && NodeText(left, right)[0] == 1;
  }

  lemma LeafTextPins(a: Bytes, b: Bytes)
    requires LeafText(a) == LeafText(b)
    ensures a == b
  {
    var n := |LeafDomain()|;
    assert a == LeafText(a)[n..] && b == LeafText(b)[n..];
  }

  lemma NodeTextPins(a: string, b: string, c: string, d: string)
    requires IsFingerprint(a) && IsFingerprint(b) && IsFingerprint(c) && IsFingerprint(d)
    requires NodeText(a, b) == NodeText(c, d)
    ensures a == c && b == d
  {
    var n := |NodeDomain()|;
    var x, y := FingerprintBytes(a) + FingerprintBytes(b), FingerprintBytes(c) + FingerprintBytes(d);
    assert x == NodeText(a, b)[n..] && y == NodeText(c, d)[n..];
    assert FingerprintBytes(a) == x[..32] && FingerprintBytes(c) == y[..32];
    assert FingerprintBytes(b) == x[32..] && FingerprintBytes(d) == y[32..];
    BytesPinFingerprint(a, c);
    BytesPinFingerprint(b, d);
  }

  // ---- Root and proofs, level by level ---------------------------------------------

  datatype Side = LeftSide | RightSide

  /** One node of a proof: the hash of the sibling and the side on which it stands. */
  datatype Step = Step(side: Side, sibling: string)

  /** The hashes in a proof are fingerprints. */
  ghost predicate SiblingsValid(p: seq<Step>) {
    forall i :: 0 <= i < |p| ==> IsFingerprint(p[i].sibling)
  }

  /** The parent of nodes 2j and 2j + 1; an odd last node is paired with itself. */
  function PairAt(sha256: Bytes -> string, level: seq<string>, j: nat): string
    requires 2 * j < |level|
  {
    ParentHash(sha256, level[2 * j], if 2 * j + 1 < |level| then level[2 * j + 1] else level[2 * j])
  }

  /** The level above. */
  function PairHashes(sha256: Bytes -> string, level: seq<string>): (r: seq<string>)
    ensures |r| == (|level| + 1) / 2
    ensures forall j :: 0 <= j < |r| ==> r[j] == PairAt(sha256, level, j)
  {
    seq((|level| + 1) / 2, j requires 0 <= j < (|level| + 1) / 2 => PairAt(sha256, level, j))
  }

  function RootOf(sha256: Bytes -> string, level: seq<string>): string
    requires level != []
    decreases |level|
  {
    if |level| == 1 then level[0] else RootOf(sha256, PairHashes(sha256, level))
  }

  function SiblingOf(level: seq<string>, k: nat): Step
    requires k < |level|
  {
    if k % 2 == 1 then Step(LeftSide, level[k - 1])
    else Step(RightSide, if k + 1 < |level| then level[k + 1] else level[k])
  }

  function ProofOf(sha256: Bytes -> string, level: seq<string>, k: nat): seq<Step>
    requires k < |level|
    decreases |level|
  {
    if |level| == 1 then []
    else [SiblingOf(level, k)] + ProofOf(sha256, PairHashes(sha256, level), k / 2)
  }

  function Apply(sha256: Bytes -> string, current: string, step: Step): string {
    if step.side.LeftSide? then ParentHash(sha256, step.sibling, current)
    else ParentHash(sha256, current, step.sibling)
  }

  /** Where a proof leads, from the bottom up. */
  function Fold(sha256: Bytes -> string, current: string, proof: seq<Step>): string
    decreases |proof|
  {
    if proof == [] then current
    else Apply(sha256, Fold(sha256, current, proof[..|proof| - 1]), proof[|proof| - 1])
  }

  lemma SiblingLeadsUp(sha256: Bytes -> string, level: seq<string>, k: nat)
    requires k < |level|
    ensures k / 2 < |PairHashes(sha256, level)|
    ensures Apply(sha256, level[k], SiblingOf(level, k)) == PairHashes(sha256, level)[k / 2]
  {
    var j := k / 2;
    assert PairHashes(sha256, level)[j] == PairAt(sha256, level, j);
    if k % 2 == 0 { LeftLeadsUp(sha256, level, j, k); } else { RightLeadsUp(sha256, level, j, k); }
  }

  lemma LeftLeadsUp(sha256: Bytes -> string, level: seq<string>, j: nat, k: nat)
    requires k == 2 * j < |level|
    ensures Apply(sha256, level[k], SiblingOf(level, k)) == PairAt(sha256, level, j)
  {
    assert SiblingOf(level, k) == Step(RightSide, if k + 1 < |level| then level[k + 1] else level[k]);
  }

  lemma RightLeadsUp(sha256: Bytes -> string, level: seq<string>, j: nat, k: nat)
    requires k == 2 * j + 1 < |level|
    ensures Apply(sha256, level[k], SiblingOf(level, k)) == PairAt(sha256, level, j)
  {
    assert SiblingOf(level, k) == Step(LeftSide, level[k - 1]);
  }

  lemma {:induction false} FoldFirst(sha256: Bytes -> string, current: string, step: Step, rest: seq<Step>)
    ensures Fold(sha256, current, [step] + rest) == Fold(sha256, Apply(sha256, current, step), rest)
    decreases |rest|
  {
    var proof := [step] + rest;
    if rest == [] {
      assert proof[..0] == [];
    } else {
      var n := |rest| - 1;
      assert proof[..n + 1] == [step] + rest[..n];
      FoldFirst(sha256, current, step, rest[..n]);
    }
  }

  /** Every proof leads from its leaf to the root. */
  lemma {:induction false} ProofsVerify(sha256: Bytes -> string, level: seq<string>, k: nat)
    requires k < |level|
    ensures Fold(sha256, level[k], ProofOf(sha256, level, k)) == RootOf(sha256, level)
    decreases |level|
  {
    if |level| > 1 {
      SiblingLeadsUp(sha256, level, k);
      FoldFirst(sha256, level[k], SiblingOf(level, k), ProofOf(sha256, PairHashes(sha256, level), k / 2));
      ProofsVerify(sha256, PairHashes(sha256, level), k / 2);
    }
  }

  // ---- _merkle_root_and_proofs -----------------------------------------------------

  datatype BuildError = NoLeaves | NotAFingerprint

  /** A node of the current level, with the leaves below it. */
  datatype LevelNode = LevelNode(hash: string, indices: seq<nat>)

  function Hashes(level: seq<LevelNode>): seq<string> {
    seq(|level|, k requires 0 <= k < |level| => level[k].hash)
  }

  /** pos[i] is the node above leaf i, and the nodes list the leaves below them, once each. */
  ghost predicate Indexed(level: seq<LevelNode>, pos: seq<nat>) {
    && (forall i :: 0 <= i < |pos| ==> pos[i] < |level|)
    && forall k :: 0 <= k < |level| ==> Lists(level[k].indices, pos, k)
  }

  ghost predicate Lists(indices: seq<nat>, pos: seq<nat>, k: nat) {
    Distinct(indices) && forall i: nat :: i in indices <==> i < |pos| && pos[i] == k
  }

  /** proofs[i].append(step) for all given leaves. */
  method AppendStep(proofs: seq<seq<Step>>, indices: seq<nat>, step: Step) returns (r: seq<seq<Step>>)
    requires Distinct(indices) && forall i :: i in indices ==> i < |proofs|
    ensures |r| == |proofs|
    ensures forall i: nat :: i < |r| ==> r[i] == proofs[i] + if i in indices then [step] else []
  {
    r := proofs;
    for j := 0 to |indices|
      invariant |r| == |proofs|
      invariant forall i: nat :: i < |r| ==> r[i] == proofs[i] + if i in indices[..j] then [step] else []
    {
      var leaf := indices[j];
      assert leaf in indices;
      assert indices[..j + 1] == indices[..j] + [leaf];
      assert leaf !in indices[..j];
      r := r[leaf := r[leaf] + [step]];
    }
    assert indices[..|indices|] == indices;
  }

  function Halves(pos: seq<nat>): seq<nat> {
    seq(|pos|, i requires 0 <= i < |pos| => pos[i] / 2)
  }

  lemma JoinLists(a: seq<nat>, b: seq<nat>, pos: seq<nat>, k: nat)
    requires Lists(a, pos, 2 * k) && Lists(b, pos, 2 * k + 1)
    ensures Lists(a + b, Halves(pos), k)
  {
    forall x | x in a ensures x !in b {}
    DistinctAppend(a, b);
    forall i: nat ensures i in a + b <==> i < |pos| && pos[i] / 2 == k {
      assert i in a + b <==> i in a || i in b;
    }
  }

  lemma LastLists(a: seq<nat>, pos: seq<nat>, k: nat)
    requires Lists(a, pos, 2 * k) && forall i :: 0 <= i < |pos| ==> pos[i] < 2 * k + 1
    ensures Lists(a, Halves(pos), k)
  {
  }

  /** proofs have been extended for the leaves below the first m nodes of the level. */
  ghost predicate Extended(proofs: seq<seq<Step>>, r: seq<seq<Step>>, level: seq<string>, pos: seq<nat>, m: nat) {
    && |r| == |proofs| == |pos|
    && forall i :: 0 <= i < |r| ==>
         pos[i] < |level| && r[i] == proofs[i] + if pos[i] < m then [SiblingOf(level, pos[i])] else []
  }

  lemma ExtendNode(proofs: seq<seq<Step>>, before: seq<seq<Step>>, after: seq<seq<Step>>, level: seq<string>,
                   pos: seq<nat>, m: nat, indices: seq<nat>, step: Step)
    requires m < |level| && Extended(proofs, before, level, pos, m) && Lists(indices, pos, m)
    requires |after| == |before| && step == SiblingOf(level, m)
    requires forall i: nat :: i < |after| ==> after[i] == before[i] + if i in indices then [step] else []
    ensures Extended(proofs, after, level, pos, m + 1)
  {
    forall i: nat | i < |after|
      ensures after[i] == proofs[i] + if pos[i] < m + 1 then [SiblingOf(level, pos[i])] else []
    {
      assert i in indices <==> pos[i] == m;
      if pos[i] == m { assert before[i] == proofs[i]; }
    }
  }

  /** The parent of two neighbours; the leaves below each get the other as a step of their proof. */
  method PairTwo(sha256: Bytes -> string, level: seq<LevelNode>, ghost proofs: seq<seq<Step>>, before: seq<seq<Step>>,
                 ghost pos: seq<nat>, j: nat)
    returns (node: LevelNode, r: seq<seq<Step>>)
    requires 2 * j + 1 < |level| && Indexed(level, pos) && Extended(proofs, before, Hashes(level), pos, 2 * j)
    ensures node.hash == PairAt(sha256, Hashes(level), j) && Lists(node.indices, Halves(pos), j)
    ensures Extended(proofs, r, Hashes(level), pos, 2 * j + 2)
  {
    var left, right := level[2 * j], level[2 * j + 1];
    assert Lists(left.indices, pos, 2 * j) && Lists(right.indices, pos, 2 * j + 1);
    var toRight, toLeft := Step(RightSide, right.hash), Step(LeftSide, left.hash);
    var half := AppendStep(before, left.indices, toRight);
    ExtendNode(proofs, before, half, Hashes(level), pos, 2 * j, left.indices, toRight);
    r := AppendStep(half, right.indices, toLeft);
    ExtendNode(proofs, half, r, Hashes(level), pos, 2 * j + 1, right.indices, toLeft);
    JoinLists(left.indices, right.indices, pos, j);
    node := LevelNode(ParentHash(sha256, left.hash, right.hash), left.indices + right.indices);
  }

  /** The parent of an odd last node, which is its own sibling. */
  method PairLast(sha256: Bytes -> string, level: seq<LevelNode>, ghost proofs: seq<seq<Step>>, before: seq<seq<Step>>,
                  ghost pos: seq<nat>, j: nat)
    returns (node: LevelNode, r: seq<seq<Step>>)
    requires 2 * j + 1 == |level| && Indexed(level, pos) && Extended(proofs, before, Hashes(level), pos, 2 * j)
    ensures node.hash == PairAt(sha256, Hashes(level), j) && Lists(node.indices, Halves(pos), j)
    ensures Extended(proofs, r, Hashes(level), pos, 2 * j + 1)
  {
    var left := level[2 * j];
    assert Lists(left.indices, pos, 2 * j);
    var step := Step(RightSide, left.hash);
    r := AppendStep(before, left.indices, step);
    ExtendNode(proofs, before, r, Hashes(level), pos, 2 * j, left.indices, step);
    LastLists(left.indices, pos, j);
    node := LevelNode(ParentHash(sha256, left.hash, left.hash), left.indices);
  }

  /** The first m hashes are fingerprints; what a fingerprint looks like does not matter here. */
  ghost predicate AreValid(valid: string -> bool, level: seq<string>, m: nat) {
    forall k :: 0 <= k < m && k < |level| ==> valid(level[k])
  }

  /** next holds the parents made so far. */
  ghost predicate Paired(sha256: Bytes -> string, level: seq<string>, pos: seq<nat>, next: seq<LevelNode>) {
    forall k :: 0 <= k < |next| ==> IsParent(sha256, level, pos, next[k], k)
  }

  ghost predicate IsParent(sha256: Bytes -> string, level: seq<string>, pos: seq<nat>, node: LevelNode, k: nat) {
    2 * k < |level| && node.hash == PairAt(sha256, level, k) && Lists(node.indices, Halves(pos), k)
  }

  lemma PairedSnoc(sha256: Bytes -> string, level: seq<string>, pos: seq<nat>, next: seq<LevelNode>, node: LevelNode)
    requires Paired(sha256, level, pos, next) && IsParent(sha256, level, pos, node, |next|)
    ensures Paired(sha256, level, pos, next + [node])
  {
  }

  lemma LevelDone(sha256: Bytes -> string, level: seq<string>, pos: seq<nat>, next: seq<LevelNode>)
    requires Paired(sha256, level, pos, next) && |next| == (|level| + 1) / 2
    requires forall i :: 0 <= i < |pos| ==> pos[i] < |level|
    ensures Hashes(next) == PairHashes(sha256, level) && Indexed(next, Halves(pos))
  {
    forall k | 0 <= k < |next|
      ensures next[k].hash == PairAt(sha256, level, k) && Lists(next[k].indices, Halves(pos), k)
    {
      assert IsParent(sha256, level, pos, next[k], k);
    }
  }

  /** How many nodes of a level of n the first j pairs take. */
  function Taken(j: nat, n: nat): nat { if 2 * j < n then 2 * j else n }

  /** The hashes of pair j can be decoded. */
  predicate PairValid(valid: string -> bool, level: seq<string>, j: nat)
    requires 2 * j < |level|
  {
    valid(level[2 * j]) && (2 * j + 1 < |level| ==> valid(level[2 * j + 1]))
  }

  lemma ValidSnoc(valid: string -> bool, level: seq<string>, j: nat)
    requires 2 * j < |level| && AreValid(valid, level, 2 * j)
    ensures PairValid(valid, level, j) <==> AreValid(valid, level, Taken(j + 1, |level|))
  {
  }

  lemma PairInvalid(valid: string -> bool, level: seq<string>, j: nat)
    requires 2 * j < |level| && !PairValid(valid, level, j)
    ensures !AreValid(valid, level, |level|)
  {
  }

  /** The parent of the next pair. */
  method PairNext(sha256: Bytes -> string, level: seq<LevelNode>, ghost proofs: seq<seq<Step>>,
                  before: seq<seq<Step>>, ghost pos: seq<nat>, j: nat)
    returns (node: LevelNode, r: seq<seq<Step>>)
    requires 2 * j < |level| && Indexed(level, pos) && Extended(proofs, before, Hashes(level), pos, 2 * j)
    ensures IsParent(sha256, Hashes(level), pos, node, j)
    ensures Extended(proofs, r, Hashes(level), pos, Taken(j + 1, |level|))
  {
    if 2 * j + 1 < |level| {
      node, r := PairTwo(sha256, level, proofs, before, pos, j);
    } else {
      node, r := PairLast(sha256, level, proofs, before, pos, j);
    }
  }

  /** One round of the loop: every node of the level gets a parent, every leaf a step of its proof. */
  method PairLevel(sha256: Bytes -> string, valid: string -> bool, level: seq<LevelNode>, proofs: seq<seq<Step>>,
                   ghost pos: seq<nat>)
    returns (ok: bool, next: seq<LevelNode>, r: seq<seq<Step>>)
    requires |level| > 1 && Indexed(level, pos) && |proofs| == |pos|
    ensures ok <==> AreValid(valid, Hashes(level), |level|)
    ensures ok ==> Hashes(next) == PairHashes(sha256, Hashes(level)) && Indexed(next, Halves(pos))
    ensures ok ==> Extended(proofs, r, Hashes(level), pos, |level|)
  {
    ghost var hashes := Hashes(level);
    next, r := [], proofs;
    for j := 0 to (|level| + 1) / 2
      invariant |next| == j && Paired(sha256, hashes, pos, next)
      invariant AreValid(valid, hashes, Taken(j, |level|))
      invariant Extended(proofs, r, hashes, pos, Taken(j, |level|))
    {
      ValidSnoc(valid, hashes, j);
      if !PairValid(valid, Hashes(level), j) {
        PairInvalid(valid, hashes, j);
        return false, next, r;
      }
      var node;
      node, r := PairNext(sha256, level, proofs, r, pos, j);
      PairedSnoc(sha256, hashes, pos, next, node);
      next := next + [node];
    }
    LevelDone(sha256, hashes, pos, next);
    ok := true;
  }

  /** The proofs so far, completed from the current level on, are the proofs of the leaves. */
  ghost predicate Climbing(sha256: Bytes -> string, leaves: seq<string>, level: seq<string>, proofs: seq<seq<Step>>,
                           pos: seq<nat>)
  {
    && leaves != [] && level != [] && |proofs| == |pos| == |leaves|
    && RootOf(sha256, level) == RootOf(sha256, leaves)
    && forall i :: 0 <= i < |leaves| ==>
         pos[i] < |level| && ProofOf(sha256, leaves, i) == proofs[i] + ProofOf(sha256, level, pos[i])
  }

  lemma ClimbLevel(sha256: Bytes -> string, leaves: seq<string>, level: seq<string>, proofs: seq<seq<Step>>,
                   pos: seq<nat>, r: seq<seq<Step>>)
    requires leaves != [] && |level| > 1 && Climbing(sha256, leaves, level, proofs, pos)
    requires Extended(proofs, r, level, pos, |level|)
    ensures Climbing(sha256, leaves, PairHashes(sha256, level), r, Halves(pos))
  {
    var next := PairHashes(sha256, level);
    forall i | 0 <= i < |leaves|
      ensures pos[i] / 2 < |next| && ProofOf(sha256, leaves, i) == r[i] + ProofOf(sha256, next, pos[i] / 2)
    {
      Regrouped(proofs[i], [SiblingOf(level, pos[i])], ProofOf(sha256, next, pos[i] / 2));
    }
  }

  /** The loop over the levels; false if some hash cannot be decoded. */
  method ClimbToRoot(sha256: Bytes -> string, valid: string -> bool, leaves: seq<string>)
    returns (ok: bool, root: string, proofs: seq<seq<Step>>)
    requires leaves != [] && forall x :: valid(sha256(x))
    ensures ok <==> |leaves| == 1 || AreValid(valid, leaves, |leaves|)
    ensures ok ==> root == RootOf(sha256, leaves) && |proofs| == |leaves|
                   && forall i :: 0 <= i < |leaves| ==> proofs[i] == ProofOf(sha256, leaves, i)
  {
    root, proofs := leaves[0], seq(|leaves|, i => []);
    var level := seq(|leaves|, i requires 0 <= i < |leaves| => LevelNode(leaves[i], [i]));
    ghost var pos: seq<nat> := seq(|leaves|, i requires 0 <= i < |leaves| => i);
    assert Hashes(level) == leaves;
    while |level| > 1
      invariant Indexed(level, pos) && Climbing(sha256, leaves, Hashes(level), proofs, pos)
      invariant Hashes(level) != leaves ==> AreValid(valid, leaves, |leaves|) && AreValid(valid, Hashes(level), |level|)
      decreases |level|
    {
      var next, extended;
      ok, next, extended := PairLevel(sha256, valid, level, proofs, pos);
      if !ok { return; }
      ClimbLevel(sha256, leaves, Hashes(level), proofs, pos, extended);
      ParentsAreValid(sha256, valid, Hashes(level));
      level, proofs, pos := next, extended, Halves(pos);
    }
    ok, root := true, level[0].hash;
    ProofsDone(sha256, leaves, Hashes(level), proofs, pos);
  }

  lemma ParentsAreValid(sha256: Bytes -> string, valid: string -> bool, level: seq<string>)
    requires forall x :: valid(sha256(x))
    ensures AreValid(valid, PairHashes(sha256, level), |PairHashes(sha256, level)|)
  {
  }

  lemma {:induction false} ProofsDone(sha256: Bytes -> string, leaves: seq<string>, level: seq<string>,
                                      proofs: seq<seq<Step>>, pos: seq<nat>)
    requires Climbing(sha256, leaves, level, proofs, pos) && |level| == 1
    ensures level[0] == RootOf(sha256, leaves)
    ensures |proofs| == |leaves| && forall i :: 0 <= i < |leaves| ==> proofs[i] == ProofOf(sha256, leaves, i)
  {
    forall i | 0 <= i < |leaves| ensures proofs[i] == ProofOf(sha256, leaves, i) {
      assert ProofOf(sha256, level, pos[i]) == [];
    }
  }

  /** _merkle_root_and_proofs */
  method MerkleRootAndProofs(sha256: Bytes -> string, leaves: seq<string>)
    returns (r: Result<RootAndProofs, BuildError>)
    requires Fingerprints(sha256)
    ensures r == Raised(NoLeaves) <==> leaves == []
    ensures r == Raised(NotAFingerprint) <==> |leaves| > 1 && !AreValid(IsFingerprint, leaves, |leaves|)
    ensures r.Ok? ==> r.value.root == RootOf(sha256, leaves) && |r.value.proofs| == |leaves|
                      && forall i :: 0 <= i < |leaves| ==> r.value.proofs[i] == ProofOf(sha256, leaves, i)
  {
    if leaves == [] { return Raised(NoLeaves); }
    var ok, root, proofs := ClimbToRoot(sha256, IsFingerprint, leaves);
    if !ok { return Raised(NotAFingerprint); }
    r := Ok(RootAndProofs(root, proofs));
  }

  datatype RootAndProofs = RootAndProofs(root: string, proofs: seq<seq<Step>>)

  // ---- The tree behind a root ------------------------------------------------------

  datatype Tree = Leaf(text: Bytes) | Node(left: Tree, right: Tree)

  function Hash(sha256: Bytes -> string, t: Tree): string {
    match t
    case Leaf(text) => LeafHash(sha256, text)
    case Node(l, r) => ParentHash(sha256, Hash(sha256, l), Hash(sha256, r))
  }

  /** All texts that are hashed for a tree. */
  function Texts(sha256: Bytes -> string, t: Tree): set<Bytes> {
    match t
    case Leaf(text) => {LeafText(text)}
    case Node(l, r) => {NodeText(Hash(sha256, l), Hash(sha256, r))} + Texts(sha256, l) + Texts(sha256, r)
  }

  function TreeHashes(sha256: Bytes -> string, level: seq<Tree>): seq<string> {
    seq(|level|, k requires 0 <= k < |level| => Hash(sha256, level[k]))
  }

  function NodeAt(level: seq<Tree>, j: nat): Tree
    requires 2 * j < |level|
  {
    Node(level[2 * j], if 2 * j + 1 < |level| then level[2 * j + 1] else level[2 * j])
  }

  function PairTrees(level: seq<Tree>): seq<Tree> {
    seq((|level| + 1) / 2, j requires 0 <= j < (|level| + 1) / 2 => NodeAt(level, j))
  }

  function Grow(level: seq<Tree>): Tree
    requires level != []
    decreases |level|
  {
    if |level| == 1 then level[0] else Grow(PairTrees(level))
  }

  function Leaves(texts: seq<Bytes>): seq<Tree> {
    seq(|texts|, i requires 0 <= i < |texts| => Leaf(texts[i]))
  }

  function LeafHashes(sha256: Bytes -> string, texts: seq<Bytes>): seq<string> {
    seq(|texts|, i requires 0 <= i < |texts| => LeafHash(sha256, texts[i]))
  }

  /** The tree of a batch. */
  function TreeOf(texts: seq<Bytes>): Tree
    requires texts != []
  {
    Grow(Leaves(texts))
  }

  lemma PairsAgree(sha256: Bytes -> string, level: seq<Tree>)
    ensures TreeHashes(sha256, PairTrees(level)) == PairHashes(sha256, TreeHashes(sha256, level))
  {
    var a, b := TreeHashes(sha256, PairTrees(level)), PairHashes(sha256, TreeHashes(sha256, level));
    forall j | 0 <= j < |a| ensures a[j] == b[j] {
      assert a[j] == Hash(sha256, NodeAt(level, j));
      HashOfPair(sha256, level, j);
    }
  }

  lemma HashOfPair(sha256: Bytes -> string, level: seq<Tree>, j: nat)
    requires 2 * j < |level|
    ensures Hash(sha256, NodeAt(level, j)) == PairAt(sha256, TreeHashes(sha256, level), j)
  {
  }

  /** Hashing level by level gives the hash of the tree. */
  lemma {:induction false} RootIsTreeHash(sha256: Bytes -> string, level: seq<Tree>)
    requires level != []
    ensures RootOf(sha256, TreeHashes(sha256, level)) == Hash(sha256, Grow(level))
    decreases |level|
  {
    if |level| > 1 {
      PairsAgree(sha256, level);
      RootIsTreeHash(sha256, PairTrees(level));
    }
  }

  lemma BatchRoot(sha256: Bytes -> string, texts: seq<Bytes>)
    requires texts != []
    ensures RootOf(sha256, LeafHashes(sha256, texts)) == Hash(sha256, TreeOf(texts))
  {
    assert LeafHashes(sha256, texts) == TreeHashes(sha256, Leaves(texts));
    RootIsTreeHash(sha256, Leaves(texts));
  }

  lemma {:induction false} HashIsFingerprint(sha256: Bytes -> string, t: Tree)
    requires Fingerprints(sha256)
    ensures IsFingerprint(Hash(sha256, t))
  {
  }

  /** The hash of a tree is the hash of the text at its top. */
  function TopText(sha256: Bytes -> string, t: Tree): Bytes {
    match t
    case Leaf(text) => LeafText(text)
    case Node(l, r) => NodeText(Hash(sha256, l), Hash(sha256, r))
  }

  /** Unless the hash takes two of the texts for one another, trees with one hash are the same tree: a
      leaf is not taken for a node, as their texts begin differently. */
  lemma {:induction false} HashPinsTree(sha256: Bytes -> string, t: Tree, u: Tree)
    requires Fingerprints(sha256) && CollisionFree(sha256, Texts(sha256, t), Texts(sha256, u))
    requires Hash(sha256, t) == Hash(sha256, u)
    ensures t == u
  {
    assert TopText(sha256, t) in Texts(sha256, t) && TopText(sha256, u) in Texts(sha256, u);
    assert NoCollision(sha256, TopText(sha256, t), TopText(sha256, u));
    match (t, u) {
      case (Leaf(a), Leaf(b)) => LeafTextPins(a, b);
      case (Leaf(a), Node(l, r)) => DomainsDiffer(a, Hash(sha256, l), Hash(sha256, r));
      case (Node(l, r), Leaf(b)) => DomainsDiffer(b, Hash(sha256, l), Hash(sha256, r));
      case (Node(a, b), Node(c, d)) =>
        HashIsFingerprint(sha256, a);
        HashIsFingerprint(sha256, b);
        HashIsFingerprint(sha256, c);
        HashIsFingerprint(sha256, d);
        NodeTextPins(Hash(sha256, a), Hash(sha256, b), Hash(sha256, c), Hash(sha256, d));
        HashPinsTree(sha256, a, c);
        HashPinsTree(sha256, b, d);
    }
  }

  // ---- What an accepted proof shows ------------------------------------------------

  /** The texts hashed on the way up. */
  function ProofTexts(sha256: Bytes -> string, current: string, proof: seq<Step>): set<Bytes>
    decreases |proof|
  {
    if proof == [] then {}
    else
      var n := |proof| - 1;
      ProofTexts(sha256, current, proof[..n]) + {StepText(Fold(sha256, current, proof[..n]), proof[n])}
  }

  /** The text hashed last. */
  function LastText(sha256: Bytes -> string, current: string, proof: seq<Step>): Bytes
    requires proof != []
  {
    StepText(Fold(sha256, current, proof[..|proof| - 1]), proof[|proof| - 1])
  }

  function StepText(current: string, step: Step): Bytes {
    if step.side.LeftSide? then NodeText(step.sibling, current) else NodeText(current, step.sibling)
  }

  /** The proof runs along a path of the tree, from a leaf with this text to the top, and its hashes are
      those of the siblings on this path. */
  predicate OnPath(sha256: Bytes -> string, t: Tree, leaf: Bytes, proof: seq<Step>)
    decreases |proof|
  {
    if proof == [] then t == Leaf(leaf)
    else
      var n := |proof| - 1;
      && t.Node?
      && if proof[n].side.LeftSide?
         then proof[n].sibling == Hash(sha256, t.left) && OnPath(sha256, t.right, leaf, proof[..n])
         else proof[n].sibling == Hash(sha256, t.right) && OnPath(sha256, t.left, leaf, proof[..n])
  }

  lemma {:induction false} FoldIsFingerprint(sha256: Bytes -> string, current: string, proof: seq<Step>)
    requires Fingerprints(sha256) && IsFingerprint(current)
    ensures IsFingerprint(Fold(sha256, current, proof))
  {
    if proof != [] { assert Fold(sha256, current, proof) == sha256(LastText(sha256, current, proof)); }
  }

  /** A proof along a path of the tree leads to its root. */
  lemma {:induction false} PathLeadsUp(sha256: Bytes -> string, t: Tree, leaf: Bytes, proof: seq<Step>)
    requires OnPath(sha256, t, leaf, proof)
    ensures Fold(sha256, LeafHash(sha256, leaf), proof) == Hash(sha256, t)
    decreases |proof|
  {
    if proof != [] {
      var n := |proof| - 1;
      PathLeadsUp(sha256, if proof[n].side.LeftSide? then t.right else t.left, leaf, proof[..n]);
    }
  }

  /** Conversely, a proof that leads to the root of a tree runs along one of its paths, however long it
      is, unless the hash takes one of the texts of the proof for one of the tree. */
  lemma {:induction false} ProofIsPath(sha256: Bytes -> string, t: Tree, leaf: Bytes, proof: seq<Step>)
    requires Fingerprints(sha256) && SiblingsValid(proof)
    requires Fold(sha256, LeafHash(sha256, leaf), proof) == Hash(sha256, t)
    requires CollisionFree(sha256, Texts(sha256, t),
                           {LeafText(leaf)} + ProofTexts(sha256, LeafHash(sha256, leaf), proof))
    ensures OnPath(sha256, t, leaf, proof)
    decreases |proof|
  {
    var start := LeafHash(sha256, leaf);
    assert TopText(sha256, t) in Texts(sha256, t);
    if proof == [] {
      assert NoCollision(sha256, TopText(sha256, t), LeafText(leaf));
      TopIsLeaf(sha256, t, leaf);
    } else {
      var n := |proof| - 1;
      var below := Fold(sha256, start, proof[..n]);
      FoldIsFingerprint(sha256, start, proof[..n]);
      assert NoCollision(sha256, TopText(sha256, t), StepText(below, proof[n]));
      SameTop(sha256, t, below, proof[n]);
      ProofIsPath(sha256, if proof[n].side.LeftSide? then t.right else t.left, leaf, proof[..n]);
    }
  }

  /** The last step hashes the text at the top of the tree, and comes from its two children. */
  lemma {:induction false} SameTop(sha256: Bytes -> string, t: Tree, below: string, step: Step)
    requires Fingerprints(sha256) && IsFingerprint(below) && IsFingerprint(step.sibling)
    requires Apply(sha256, below, step) == Hash(sha256, t)
    requires NoCollision(sha256, TopText(sha256, t), StepText(below, step))
    ensures t.Node?
    ensures if step.side.LeftSide? then Hash(sha256, t.left) == step.sibling && Hash(sha256, t.right) == below
            else Hash(sha256, t.right) == step.sibling && Hash(sha256, t.left) == below
  {
    assert sha256(TopText(sha256, t)) == Hash(sha256, t) && sha256(StepText(below, step)) == Apply(sha256, below, step);
    TopIsStep(sha256, t, below, step);
  }

  lemma TopIsLeaf(sha256: Bytes -> string, t: Tree, leaf: Bytes)
    requires TopText(sha256, t) == LeafText(leaf)
    ensures t == Leaf(leaf)
  {
    match t {
      case Leaf(text) => LeafTextPins(text, leaf);
      case Node(l, r) => DomainsDiffer(leaf, Hash(sha256, l), Hash(sha256, r));
    }
  }

  lemma TopIsStep(sha256: Bytes -> string, t: Tree, below: string, step: Step)
    requires Fingerprints(sha256) && IsFingerprint(below) && IsFingerprint(step.sibling)
    requires TopText(sha256, t) == StepText(below, step)
    ensures t.Node?
    ensures if step.side.LeftSide? then Hash(sha256, t.left) == step.sibling && Hash(sha256, t.right) == below
            else Hash(sha256, t.right) == step.sibling && Hash(sha256, t.left) == below
  {
    var left, right := if step.side.LeftSide? then step.sibling else below,
      if step.side.LeftSide? then below else step.sibling;
    match t {
      case Leaf(text) => DomainsDiffer(text, left, right);
      case Node(l, r) =>
        HashIsFingerprint(sha256, l);
        HashIsFingerprint(sha256, r);
        NodeTextPins(Hash(sha256, l), Hash(sha256, r), left, right);
    }
  }

  predicate HasLeaf(t: Tree, text: Bytes) {
    match t
    case Leaf(own) => own == text
    case Node(l, r) => HasLeaf(l, text) || HasLeaf(r, text)
  }

  lemma {:induction false} PathEndsInLeaf(sha256: Bytes -> string, t: Tree, leaf: Bytes, proof: seq<Step>)
    requires OnPath(sha256, t, leaf, proof)
    ensures HasLeaf(t, leaf)
    decreases |proof|
  {
    if proof != [] {
      var n := |proof| - 1;
      PathEndsInLeaf(sha256, if proof[n].side.LeftSide? then t.right else t.left, leaf, proof[..n]);
    }
  }

  ghost predicate SomeHasLeaf(level: seq<Tree>, text: Bytes) {
    exists k :: 0 <= k < |level| && HasLeaf(level[k], text)
  }

  /** Pairing loses no leaf and invents none. */
  lemma PairsKeepLeaves(level: seq<Tree>, text: Bytes)
    ensures SomeHasLeaf(PairTrees(level), text) <==> SomeHasLeaf(level, text)
  {
    var next := PairTrees(level);
    if SomeHasLeaf(level, text) {
      var k :| 0 <= k < |level| && HasLeaf(level[k], text);
      var j := k / 2;
      assert k == 2 * j || k == 2 * j + 1;
      assert next[j] == NodeAt(level, j) && HasLeaf(next[j], text);
    }
    if SomeHasLeaf(next, text) {
      var j :| 0 <= j < |next| && HasLeaf(next[j], text);
      assert next[j] == NodeAt(level, j);
      assert HasLeaf(level[2 * j], text) || (2 * j + 1 < |level| && HasLeaf(level[2 * j + 1], text));
    }
  }

  lemma {:induction false} GrownLeaves(level: seq<Tree>, text: Bytes)
    requires level != []
    ensures HasLeaf(Grow(level), text) <==> SomeHasLeaf(level, text)
    decreases |level|
  {
    if |level| > 1 {
      PairsKeepLeaves(level, text);
      GrownLeaves(PairTrees(level), text);
    }
  }

  lemma {:induction false} BatchLeaves(texts: seq<Bytes>, text: Bytes)
    requires texts != []
    ensures HasLeaf(TreeOf(texts), text) <==> text in texts
  {
    GrownLeaves(Leaves(texts), text);
    if text in texts {
      var i := IndexOf(texts, text);
      assert HasLeaf(Leaves(texts)[i], text);
    }
  }

  // ---- verify_rule_anchor_proof ----------------------------------------------------

  /** What a leaf covers of a batch entry. */
  datatype RuleEntry = RuleEntry(ruleSet: string, ruleClass: string, visibility: string, approvals: seq<string>)

  const LEAF_KEYS := ["rule_set_fingerprint", "rule_class", "visibility", "approval_fingerprints"]

  function Strings(xs: seq<string>): seq<Json> {
    seq(|xs|, i requires 0 <= i < |xs| => Str(xs[i]))
  }

  function LeafFields(e: RuleEntry): seq<Json> {
    [Str(e.ruleSet), Str(e.ruleClass), Str(e.visibility), Arr(Strings(e.approvals))]
  }

  /** The canonical JSON of the leaf, in bytes. */
  function LeafBytes(e: RuleEntry): Bytes { EncodeAll(Dumps(Obj(Zip(LEAF_KEYS, LeafFields(e))))) }

  lemma LeafKeysDistinct()
    ensures Distinct(LEAF_KEYS)
  {
    assert LEAF_KEYS[0][5] == 's' && LEAF_KEYS[1][5] == 'c' && LEAF_KEYS[0][0] == LEAF_KEYS[1][0] == 'r';
    assert LEAF_KEYS[2][0] == 'v' && LEAF_KEYS[3][0] == 'a';
  }

  lemma BytesPinFields(keys: seq<string>, x: seq<Json>, y: seq<Json>)
    requires Distinct(keys) && |keys| == |x| == |y|
    requires forall i :: 0 <= i < |x| ==> WellFormed(x[i]) && WellFormed(y[i])
    requires EncodeAll(Dumps(Obj(Zip(keys, x)))) == EncodeAll(Dumps(Obj(Zip(keys, y))))
    ensures forall i :: 0 <= i < |keys| ==> Same(x[i], y[i])
  {
    DecodeEncode(Dumps(Obj(Zip(keys, x))));
    DecodeEncode(Dumps(Obj(Zip(keys, y))));
    SameFields(keys, x, y);
  }

  lemma LeafFieldsOk(e: RuleEntry)
    ensures |LeafFields(e)| == |LEAF_KEYS|
    ensures forall i :: 0 <= i < |LEAF_KEYS| ==> WellFormed(LeafFields(e)[i])
  {
    var x := LeafFields(e);
    assert WellFormed(x[0]) && WellFormed(x[1]) && WellFormed(x[2]) && WellFormed(x[3]);
  }

  /** Different leaves have different bytes. */
  lemma LeafBytesPin(a: RuleEntry, b: RuleEntry)
    requires LeafBytes(a) == LeafBytes(b)
    ensures a == b
  {
    var x, y := LeafFields(a), LeafFields(b);
    LeafKeysDistinct();
    LeafFieldsOk(a);
    LeafFieldsOk(b);
    BytesPinFields(LEAF_KEYS, x, y);
    SameLeafFields(a, b, |LEAF_KEYS|);
  }

  lemma SameLeafFields(a: RuleEntry, b: RuleEntry, n: nat)
    requires n == |LeafFields(a)| == |LeafFields(b)|
    requires forall i :: 0 <= i < n ==> Same(LeafFields(a)[i], LeafFields(b)[i])
    ensures a == b
  {
    var x, y := LeafFields(a), LeafFields(b);
    assert Same(x[0], y[0]) && Same(x[1], y[1]) && Same(x[2], y[2]) && Same(x[3], y[3]);
    var p, q := Strings(a.approvals), Strings(b.approvals);
    assert |p| == |q| && forall i :: 0 <= i < |p| ==> Same(p[i], q[i]);
    forall i | 0 <= i < |p| ensures a.approvals[i] == b.approvals[i] { assert Same(p[i], q[i]); }
  }

  /** A node as a manifest gives it; hash is None unless it is a string. */
  datatype ProofNode = NotObject | ProofNode(position: string, hash: Option<string>)

  /** An entry as a manifest gives it; leafHash is None unless it is a string, proof unless it is a list. */
  datatype Claim = Claim(entry: RuleEntry, leafHash: Option<string>, proof: Option<seq<ProofNode>>)

  predicate NodeOk(n: ProofNode) {
    n.ProofNode? && n.hash.Some? && IsFingerprint(n.hash.value) && (n.position == "left" || n.position == "right")
  }

  predicate NodesOk(nodes: seq<ProofNode>) {
    forall i :: 0 <= i < |nodes| ==> NodeOk(nodes[i])
  }

  function StepOf(n: ProofNode): Step
    requires NodeOk(n)
  {
    Step(if n.position == "left" then LeftSide else RightSide, n.hash.value)
  }

  function Steps(nodes: seq<ProofNode>): (r: seq<Step>)
    requires NodesOk(nodes)
    ensures |r| == |nodes| && forall i :: 0 <= i < |nodes| ==> r[i] == StepOf(nodes[i])
  {
    seq(|nodes|, i requires 0 <= i < |nodes| => StepOf(nodes[i]))
  }

  function EntryHash(sha256: Bytes -> string, e: RuleEntry): string { LeafHash(sha256, LeafBytes(e)) }

  /** The claim is well formed, and its proof leads from the entry to the root. */
  predicate Accepts(sha256: Bytes -> string, c: Claim, root: string) {
    && c.leafHash == Some(EntryHash(sha256, c.entry))
    && c.proof.Some? && Leads(sha256, EntryHash(sha256, c.entry), c.proof.value, root)
  }

  /** The nodes are well formed and lead to the root. */
  predicate Leads(sha256: Bytes -> string, start: string, nodes: seq<ProofNode>, root: string) {
    NodesOk(nodes) && Fold(sha256, start, Steps(nodes)) == root
  }

  /** One node of the proof: where it leads, or None if it is malformed. */
  method StepUp(sha256: Bytes -> string, current: string, node: ProofNode) returns (r: Option<string>)
    ensures r.Some? <==> NodeOk(node)
    ensures r.Some? ==> r.value == Apply(sha256, current, StepOf(node))
  {
    if node.NotObject? { return None; }
    if node.hash.None? || !IsFingerprint(node.hash.value) { return None; }
    if node.position == "left" {
      r := Some(ParentHash(sha256, node.hash.value, current));
    } else if node.position == "right" {
      r := Some(ParentHash(sha256, current, node.hash.value));
    } else {
      r := None;
    }
  }

  method FollowProof(sha256: Bytes -> string, start: string, proof: seq<ProofNode>, root: string) returns (ok: bool)
    ensures ok <==> Leads(sha256, start, proof, root)
  {
    var current := start;
    for i := 0 to |proof|
      invariant Leads(sha256, start, proof[..i], current)
    {
      var up := StepUp(sha256, current, proof[i]);
      if up.None? {
        return false;
      }
      LeadsOn(sha256, start, proof, i, current);
      current := up.value;
    }
    assert proof[..|proof|] == proof;
    ok := current == root;
  }

  /** One more node is followed. */
  lemma LeadsOn(sha256: Bytes -> string, start: string, nodes: seq<ProofNode>, i: nat, current: string)
    requires i < |nodes| && Leads(sha256, start, nodes[..i], current) && NodeOk(nodes[i])
    ensures Leads(sha256, start, nodes[..i + 1], Apply(sha256, current, StepOf(nodes[i])))
  {
    assert nodes[..i + 1] == nodes[..i] + [nodes[i]];
    StepsSnoc(nodes[..i], nodes[i]);
    FoldLast(sha256, start, Steps(nodes[..i + 1]), i);
  }

  lemma {:induction false} FoldLast(sha256: Bytes -> string, start: string, steps: seq<Step>, n: nat)
    requires |steps| == n + 1
    ensures Fold(sha256, start, steps) == Apply(sha256, Fold(sha256, start, steps[..n]), steps[n])
  {
  }

  method VerifyRuleAnchorProof(sha256: Bytes -> string, c: Claim, root: string) returns (ok: bool)
    ensures ok <==> Accepts(sha256, c, root)
  {
    var current := EntryHash(sha256, c.entry);
    if c.leafHash != Some(current) { return false; }
    if c.proof.None? { return false; }
    ok := FollowProof(sha256, current, c.proof.value, root);
  }

  lemma StepsSnoc(nodes: seq<ProofNode>, node: ProofNode)
    requires NodesOk(nodes) && NodeOk(node)
    ensures NodesOk(nodes + [node])
    ensures Steps(nodes + [node])[..|nodes|] == Steps(nodes) && Steps(nodes + [node])[|nodes|] == StepOf(node)
  {
  }

  // ---- Accepted exactly the members ------------------------------------------------

  function BatchTexts(entries: seq<RuleEntry>): seq<Bytes> {
    seq(|entries|, i requires 0 <= i < |entries| => LeafBytes(entries[i]))
  }

  function BatchHashes(sha256: Bytes -> string, entries: seq<RuleEntry>): seq<string> {
    seq(|entries|, i requires 0 <= i < |entries| => EntryHash(sha256, entries[i]))
  }

  function BatchRootOf(sha256: Bytes -> string, entries: seq<RuleEntry>): string
    requires entries != []
  {
    RootOf(sha256, BatchHashes(sha256, entries))
  }

  lemma BatchRootIsTreeHash(sha256: Bytes -> string, entries: seq<RuleEntry>)
    requires entries != []
    ensures BatchRootOf(sha256, entries) == Hash(sha256, TreeOf(BatchTexts(entries)))
  {
    assert BatchHashes(sha256, entries) == LeafHashes(sha256, BatchTexts(entries));
    BatchRoot(sha256, BatchTexts(entries));
  }

  /** All that is hashed to check a claim. */
  function ClaimTexts(sha256: Bytes -> string, c: Claim): set<Bytes>
    requires c.proof.Some? && NodesOk(c.proof.value)
  {
    {LeafText(LeafBytes(c.entry))} + ProofTexts(sha256, EntryHash(sha256, c.entry), Steps(c.proof.value))
  }

  /** Against the root of a batch, a well-formed claim is accepted exactly when its proof runs along a
      path of the batch's tree, and then its entry is one of the batch: proofs of any length are tried. */
  lemma AcceptedIsMember(sha256: Bytes -> string, entries: seq<RuleEntry>, c: Claim)
    requires entries != [] && Fingerprints(sha256)
    requires c.leafHash == Some(EntryHash(sha256, c.entry)) && c.proof.Some? && NodesOk(c.proof.value)
    requires CollisionFree(sha256, Texts(sha256, TreeOf(BatchTexts(entries))), ClaimTexts(sha256, c))
    ensures Accepts(sha256, c, BatchRootOf(sha256, entries))
            <==> OnPath(sha256, TreeOf(BatchTexts(entries)), LeafBytes(c.entry), Steps(c.proof.value))
    ensures Accepts(sha256, c, BatchRootOf(sha256, entries)) ==> c.entry in entries
  {
    var texts, steps, leaf := BatchTexts(entries), Steps(c.proof.value), LeafBytes(c.entry);
    BatchRootIsTreeHash(sha256, entries);
    if OnPath(sha256, TreeOf(texts), leaf, steps) { PathLeadsUp(sha256, TreeOf(texts), leaf, steps); }
    if Accepts(sha256, c, BatchRootOf(sha256, entries)) {
      ProofIsPath(sha256, TreeOf(texts), leaf, steps);
      PathEndsInLeaf(sha256, TreeOf(texts), leaf, steps);
      BatchLeaves(texts, leaf);
      MemberWithBytes(entries, c.entry);
    }
  }

  lemma MemberWithBytes(entries: seq<RuleEntry>, e: RuleEntry)
    requires LeafBytes(e) in BatchTexts(entries)
    ensures e in entries
  {
    var i := IndexOf(BatchTexts(entries), LeafBytes(e));
    LeafBytesPin(entries[i], e);
  }

  function NodeOf(step: Step): ProofNode {
    ProofNode(if step.side.LeftSide? then "left" else "right", Some(step.sibling))
  }

  function NodesOf(steps: seq<Step>): seq<ProofNode> {
    seq(|steps|, i requires 0 <= i < |steps| => NodeOf(steps[i]))
  }

  lemma NodesGiveSteps(steps: seq<Step>)
    requires SiblingsValid(steps)
    ensures NodesOk(NodesOf(steps)) && Steps(NodesOf(steps)) == steps
  {
    var nodes := NodesOf(steps);
    forall i | 0 <= i < |nodes| ensures NodeOk(nodes[i]) && StepOf(nodes[i]) == steps[i] {
      assert nodes[i] == NodeOf(steps[i]);
    }
  }

  lemma {:induction false} BuiltSiblings(sha256: Bytes -> string, level: seq<string>, k: nat)
    requires k < |level| && Fingerprints(sha256) && AreValid(IsFingerprint, level, |level|)
    ensures SiblingsValid(ProofOf(sha256, level, k))
    decreases |level|
  {
    if |level| > 1 {
      ParentsAreValid(sha256, IsFingerprint, level);
      BuiltSiblings(sha256, PairHashes(sha256, level), k / 2);
    }
  }

  /** Every entry of a batch, with the proof built for it, is accepted. */
  lemma {:induction false} BuiltClaimIsAccepted(sha256: Bytes -> string, entries: seq<RuleEntry>, k: nat)
    requires k < |entries| && Fingerprints(sha256)
    ensures var proof := ProofOf(sha256, BatchHashes(sha256, entries), k);
            Accepts(sha256, Claim(entries[k], Some(EntryHash(sha256, entries[k])), Some(NodesOf(proof))),
                    BatchRootOf(sha256, entries))
  {
    var hashes := BatchHashes(sha256, entries);
    var proof := ProofOf(sha256, hashes, k);
    assert AreValid(IsFingerprint, hashes, |hashes|);
    BuiltSiblings(sha256, hashes, k);
    NodesGiveSteps(proof);
    ProofsVerify(sha256, hashes, k);
  }

  predicate SameSides(p: seq<Step>, q: seq<Step>) {
    |p| == |q| && forall i :: 0 <= i < |p| ==> p[i].side == q[i].side
  }

  /** The last steps of two such proofs are the same, and so is what they start from. */
  lemma {:induction false} LastStepPins(sha256: Bytes -> string, a: string, p: seq<Step>, b: string, q: seq<Step>)
    requires Fingerprints(sha256) && IsFingerprint(a) && IsFingerprint(b) && SameSides(p, q) && p != []
    requires SiblingsValid(p) && SiblingsValid(q) && Fold(sha256, a, p) == Fold(sha256, b, q)
    requires NoCollision(sha256, LastText(sha256, a, p), LastText(sha256, b, q))
    ensures var n := |p| - 1; p[n] == q[n] && Fold(sha256, a, p[..n]) == Fold(sha256, b, q[..n])
  {
    var n := |p| - 1;
    FoldIsFingerprint(sha256, a, p[..n]);
    FoldIsFingerprint(sha256, b, q[..n]);
    SameStep(sha256, Fold(sha256, a, p[..n]), p[n], Fold(sha256, b, q[..n]), q[n]);
  }

  /** Two proofs, each with the hash it starts from, that lead to one hash along the same path. */
  ghost predicate Meet(sha256: Bytes -> string, a: string, p: seq<Step>, b: string, q: seq<Step>) {
    && IsFingerprint(a) && IsFingerprint(b) && SameSides(p, q)
    && SiblingsValid(p) && SiblingsValid(q) && Fold(sha256, a, p) == Fold(sha256, b, q)
    && CollisionFree(sha256, ProofTexts(sha256, a, p), ProofTexts(sha256, b, q))
  }

  lemma PeelStep(sha256: Bytes -> string, a: string, p: seq<Step>, b: string, q: seq<Step>)
    requires Fingerprints(sha256) && p != [] && Meet(sha256, a, p, b, q)
    ensures var n := |p| - 1; |q| == |p| && p[n] == q[n] && Meet(sha256, a, p[..n], b, q[..n])
  {
    var n := |p| - 1;
    LastTextIsHashed(sha256, a, p);
    LastTextIsHashed(sha256, b, q);
    FewerTexts(sha256, ProofTexts(sha256, a, p), ProofTexts(sha256, b, q), ProofTexts(sha256, a, p[..n]),
               ProofTexts(sha256, b, q[..n]), LastText(sha256, a, p), LastText(sha256, b, q));
    LastStepPins(sha256, a, p, b, q);
    PrefixesAlike(p, q, n);
  }

  /** Whatever the root, one path leads to it from one hash only. */
  lemma {:induction false} PathPinsStart(sha256: Bytes -> string, a: string, p: seq<Step>, b: string, q: seq<Step>)
    requires Fingerprints(sha256) && Meet(sha256, a, p, b, q)
    ensures a == b && p == q
    decreases |p|
  {
    if p != [] {
      var n := |p| - 1;
      PeelStep(sha256, a, p, b, q);
      PathPinsStart(sha256, a, p[..n], b, q[..n]);
      SameSnoc(p, q, n);
    }
  }

  lemma SameSnoc<T>(p: seq<T>, q: seq<T>, n: nat)
    requires |p| == |q| == n + 1 && p[..n] == q[..n] && p[n] == q[n]
    ensures p == q
  {
    assert p == p[..n] + [p[n]] && q == q[..n] + [q[n]];
  }

  lemma {:induction false} LastTextIsHashed(sha256: Bytes -> string, a: string, p: seq<Step>)
    requires p != []
    ensures LastText(sha256, a, p) in ProofTexts(sha256, a, p)
    ensures ProofTexts(sha256, a, p[..|p| - 1]) <= ProofTexts(sha256, a, p)
  {
  }

  lemma FewerTexts(sha256: Bytes -> string, a: set<Bytes>, b: set<Bytes>, c: set<Bytes>, d: set<Bytes>, x: Bytes,
                   y: Bytes)
    requires CollisionFree(sha256, a, b) && c <= a && d <= b && x in a && y in b
    ensures CollisionFree(sha256, c, d) && NoCollision(sha256, x, y)
  {
  }

  lemma PrefixesAlike(p: seq<Step>, q: seq<Step>, n: nat)
    requires n <= |p| && SameSides(p, q) && SiblingsValid(p) && SiblingsValid(q)
    ensures SameSides(p[..n], q[..n]) && SiblingsValid(p[..n]) && SiblingsValid(q[..n])
  {
  }

  lemma SameStep(sha256: Bytes -> string, x: string, s: Step, y: string, t: Step)
    requires IsFingerprint(x) && IsFingerprint(y) && IsFingerprint(s.sibling) && IsFingerprint(t.sibling)
    requires s.side == t.side && Apply(sha256, x, s) == Apply(sha256, y, t)
    requires NoCollision(sha256, StepText(x, s), StepText(y, t))
    ensures x == y && s == t
  {
    if s.side.LeftSide? {
      NodeTextPins(s.sibling, x, t.sibling, y);
    } else {
      NodeTextPins(x, s.sibling, y, t.sibling);
    }
  }

  /** Two claims accepted for one root at the same place of the tree are the same claim. */
  lemma PlacePinsEntry(sha256: Bytes -> string, c: Claim, d: Claim, root: string)
    requires Fingerprints(sha256) && Accepts(sha256, c, root) && Accepts(sha256, d, root)
    requires SameSides(Steps(c.proof.value), Steps(d.proof.value))
    requires CollisionFree(sha256, ClaimTexts(sha256, c), ClaimTexts(sha256, d))
    ensures c.entry == d.entry && Steps(c.proof.value) == Steps(d.proof.value)
  {
    PathPinsStart(sha256, EntryHash(sha256, c.entry), Steps(c.proof.value), EntryHash(sha256, d.entry),
                  Steps(d.proof.value));
    assert NoCollision(sha256, LeafText(LeafBytes(c.entry)), LeafText(LeafBytes(d.entry)));
    LeafTextPins(LeafBytes(c.entry), LeafBytes(d.entry));
    LeafBytesPin(c.entry, d.entry);
  }

  // ---- What a root pins ------------------------------------------------------------

  /** The leaves with repetitions, as the pairing of odd last nodes with themselves fills them up: the
      list is n blocks of b leaves, and an odd last block is repeated. */
  function Completed<T>(xs: seq<T>, n: nat, b: nat): seq<T>
    requires n > 0 && |xs| == n * b
    decreases n
  {
    BlockSizes(n, b);
    if n == 1 then xs
    else if n % 2 == 0 then Completed(xs, n / 2, 2 * b)
    else Completed(xs + xs[|xs| - b..], (n + 1) / 2, 2 * b)
  }

  lemma BlockSizes(n: nat, b: nat)
    ensures n % 2 == 0 ==> n * b == n / 2 * (2 * b)
    ensures n % 2 == 1 ==> n * b + b == (n + 1) / 2 * (2 * b)
    ensures n > 0 ==> n * b == (n - 1) * b + b && n * b >= b
  {
    var h := n / 2;
    Doubles(h, b);
    Doubles(h + 1, b);
    if n % 2 == 0 {
      assert n == 2 * h;
    } else {
      assert n == 2 * h + 1 && (n + 1) / 2 == h + 1;
      OneMore(n, b);
      assert n + 1 == 2 * (h + 1);
    }
    if n > 0 { OneMore(n - 1, b); }
  }

  lemma Doubles(h: nat, b: nat)
    ensures 2 * h * b == h * (2 * b)
  {
  }

  lemma OneMore(n: nat, b: nat)
    ensures (n + 1) * b == n * b + b && n * b >= 0
  {
  }

  /** Filling up keeps the list in front and adds nothing new. */
  lemma {:induction false} CompletedExtends<T>(xs: seq<T>, n: nat, b: nat)
    requires n > 0 && |xs| == n * b
    ensures xs <= Completed(xs, n, b) && forall x :: x in Completed(xs, n, b) ==> x in xs
    decreases n
  {
    BlockSizes(n, b);
    if n == 1 {
    } else if n % 2 == 0 {
      CompletedExtends(xs, n / 2, 2 * b);
    } else {
      CompletedExtends(xs + xs[|xs| - b..], (n + 1) / 2, 2 * b);
    }
  }

  predicate Perfect(t: Tree, d: nat) {
    match t
    case Leaf(_) => d == 0
    case Node(l, r) => d > 0 && Perfect(l, d - 1) && Perfect(r, d - 1)
  }

  function Frontier(t: Tree): seq<Bytes> {
    match t
    case Leaf(text) => [text]
    case Node(l, r) => Frontier(l) + Frontier(r)
  }

  function Flat(level: seq<Tree>): seq<Bytes> {
    if level == [] then [] else Flat(level[..|level| - 1]) + Frontier(level[|level| - 1])
  }

  function Pow2(d: nat): nat { if d == 0 then 1 else 2 * Pow2(d - 1) }

  lemma {:induction false} FrontierSize(t: Tree, d: nat)
    requires Perfect(t, d)
    ensures |Frontier(t)| == Pow2(d)
  {
    match t {
      case Leaf(_) =>
      case Node(l, r) => FrontierSize(l, d - 1); FrontierSize(r, d - 1);
    }
  }

  lemma {:induction false} Pow2Pins(d: nat, e: nat)
    requires Pow2(d) == Pow2(e)
    ensures d == e
  {
    if d > 0 && e > 0 { Pow2Pins(d - 1, e - 1); }
  }

  /** A perfect tree is determined by its leaves. */
  lemma {:induction false} FrontierPins(t: Tree, u: Tree, d: nat)
    requires Perfect(t, d) && Perfect(u, d) && Frontier(t) == Frontier(u)
    ensures t == u
  {
    match (t, u) {
      case (Leaf(a), Leaf(b)) => assert Frontier(t)[0] == a && Frontier(u)[0] == b;
      case (Node(a, b), Node(c, e)) =>
        FrontierSize(a, d - 1);
        FrontierSize(c, d - 1);
        var n, x, y := |Frontier(a)|, Frontier(t), Frontier(u);
        assert Frontier(a) == x[..n] && Frontier(b) == x[n..] && Frontier(c) == y[..n] && Frontier(e) == y[n..];
        FrontierPins(a, c, d - 1);
        FrontierPins(b, e, d - 1);
    }
  }

  predicate AllPerfect(level: seq<Tree>, d: nat) {
    forall k :: 0 <= k < |level| ==> Perfect(level[k], d)
  }

  lemma PairsArePerfect(level: seq<Tree>, d: nat)
    requires AllPerfect(level, d)
    ensures AllPerfect(PairTrees(level), d + 1)
  {
    forall j | 0 <= j < |PairTrees(level)| ensures Perfect(PairTrees(level)[j], d + 1) {
      assert PairTrees(level)[j] == NodeAt(level, j);
    }
  }

  lemma {:induction false} FlatSize(level: seq<Tree>, d: nat)
    requires AllPerfect(level, d)
    ensures |Flat(level)| == |level| * Pow2(d)
  {
    if level != [] {
      var m := |level| - 1;
      FlatSize(level[..m], d);
      FrontierSize(level[m], d);
      BlockSizes(|level|, Pow2(d));
    }
  }

  /** Pairing an even level keeps the leaves in order; an odd one repeats those of its last node. */
  lemma {:induction false} PairsFlat(level: seq<Tree>)
    ensures |level| % 2 == 0 ==> Flat(PairTrees(level)) == Flat(level)
    ensures |level| % 2 == 1 ==> Flat(PairTrees(level)) == Flat(level) + Frontier(level[|level| - 1])
    decreases |level|
  {
    if level != [] {
      var m := (|level| - 1) / 2;
      var front := level[..2 * m];
      PairsFront(level, m);
      PairsFlat(front);
      assert Flat(PairTrees(level)) == Flat(front) + Frontier(NodeAt(level, m));
      if |level| % 2 == 1 { OddFlat(level, m); } else { EvenFlat(level, m); }
    }
  }

  lemma PairsFront(level: seq<Tree>, m: nat)
    requires 2 * m < |level| <= 2 * m + 2
    ensures |PairTrees(level)| == m + 1 && PairTrees(level)[..m] == PairTrees(level[..2 * m])
    ensures PairTrees(level)[m] == NodeAt(level, m)
  {
    var next, front := PairTrees(level), level[..2 * m];
    forall j | 0 <= j < m ensures next[j] == PairTrees(front)[j] {
      assert next[j] == NodeAt(level, j) && PairTrees(front)[j] == NodeAt(front, j);
    }
  }

  lemma {:induction false} OddFlat(level: seq<Tree>, m: nat)
    requires |level| == 2 * m + 1
    ensures Flat(level[..2 * m]) + Frontier(NodeAt(level, m)) == Flat(level) + Frontier(level[2 * m])
  {
    var last := Frontier(level[2 * m]);
    Regrouped(Flat(level[..2 * m]), last, last);
  }

  lemma {:induction false} EvenFlat(level: seq<Tree>, m: nat)
    requires |level| == 2 * m + 2
    ensures Flat(level[..2 * m]) + Frontier(NodeAt(level, m)) == Flat(level)
  {
    var most := level[..2 * m + 1];
    assert most[..2 * m] == level[..2 * m] && most[2 * m] == level[2 * m];
    Regrouped(Flat(level[..2 * m]), Frontier(level[2 * m]), Frontier(level[2 * m + 1]));
  }

  /** The leaves of the tree are the completed list. */
  lemma {:induction false} GrowCompletes(level: seq<Tree>, d: nat) returns (e: nat)
    requires level != [] && AllPerfect(level, d)
    ensures |Flat(level)| == |level| * Pow2(d)
    ensures Perfect(Grow(level), e) && Frontier(Grow(level)) == Completed(Flat(level), |level|, Pow2(d))
    decreases |level|
  {
    FlatSize(level, d);
    if |level| == 1 {
      e := d;
      assert level[..0] == [] && Flat(level) == [] + Frontier(level[0]);
    } else {
      PairsArePerfect(level, d);
      e := GrowCompletes(PairTrees(level), d + 1);
      CompletedStep(level, d);
    }
  }

  lemma CompletedStep(level: seq<Tree>, d: nat)
    requires |level| > 1 && AllPerfect(level, d) && |Flat(level)| == |level| * Pow2(d)
    requires |Flat(PairTrees(level))| == |PairTrees(level)| * Pow2(d + 1)
    ensures Completed(Flat(level), |level|, Pow2(d))
            == Completed(Flat(PairTrees(level)), |PairTrees(level)|, Pow2(d + 1))
  {
    var n := |level|;
    PairsFlat(level);
    BlockSizes(n, Pow2(d));
    FrontierSize(level[n - 1], d);
    if n % 2 == 0 {
      assert Flat(PairTrees(level)) == Flat(level);
    } else {
      var flat := Flat(level);
      assert flat[|flat| - Pow2(d)..] == Frontier(level[n - 1]);
    }
  }

  lemma {:induction false} FlatLeaves(texts: seq<Bytes>)
    ensures Flat(Leaves(texts)) == texts
  {
    if texts != [] {
      var n := |texts| - 1;
      FlatLeaves(texts[..n]);
      assert Leaves(texts)[..n] == Leaves(texts[..n]);
      assert texts == texts[..n] + [texts[n]];
    }
  }

  /** The tree of a batch is perfect, with the completed list for its leaves. */
  lemma TreeOfBatch(texts: seq<Bytes>) returns (e: nat)
    requires texts != []
    ensures Perfect(TreeOf(texts), e) && Frontier(TreeOf(texts)) == Completed(texts, |texts|, 1)
  {
    FlatLeaves(texts);
    e := GrowCompletes(Leaves(texts), 0);
  }

  lemma {:induction false} TreesAgreeIff(xs: seq<Bytes>, ys: seq<Bytes>)
    requires xs != [] && ys != []
    ensures TreeOf(xs) == TreeOf(ys) <==> Completed(xs, |xs|, 1) == Completed(ys, |ys|, 1)
  {
    var d := TreeOfBatch(xs);
    var e := TreeOfBatch(ys);
    if Completed(xs, |xs|, 1) == Completed(ys, |ys|, 1) {
      FrontierSize(TreeOf(xs), d);
      FrontierSize(TreeOf(ys), e);
      Pow2Pins(d, e);
      FrontierPins(TreeOf(xs), TreeOf(ys), d);
    }
  }

  lemma RootsAgreeIff(sha256: Bytes -> string, a: seq<RuleEntry>, b: seq<RuleEntry>)
    requires a != [] && b != [] && Fingerprints(sha256)
    requires CollisionFree(sha256, Texts(sha256, TreeOf(BatchTexts(a))), Texts(sha256, TreeOf(BatchTexts(b))))
    ensures BatchRootOf(sha256, a) == BatchRootOf(sha256, b) <==> TreeOf(BatchTexts(a)) == TreeOf(BatchTexts(b))
  {
    BatchRootIsTreeHash(sha256, a);
    BatchRootIsTreeHash(sha256, b);
    if BatchRootOf(sha256, a) == BatchRootOf(sha256, b) {
      HashPinsTree(sha256, TreeOf(BatchTexts(a)), TreeOf(BatchTexts(b)));
    }
  }

  lemma {:induction false} CompletionsAgreeIff(a: seq<RuleEntry>, b: seq<RuleEntry>)
    requires a != [] && b != []
    ensures TreeOf(BatchTexts(a)) == TreeOf(BatchTexts(b)) <==> Completed(a, |a|, 1) == Completed(b, |b|, 1)
  {
    TreesAgreeIff(BatchTexts(a), BatchTexts(b));
    CompletedTexts(a, |a|, 1);
    CompletedTexts(b, |b|, 1);
    SameTextsSameEntries(Completed(a, |a|, 1), Completed(b, |b|, 1));
  }

  /** Unless hashes collide, batches have one root exactly when their completed lists agree: the root pins
      every leaf and its place, but not where the list ends and its repetition begins. */
  lemma {:induction false} RootPinsIff(sha256: Bytes -> string, a: seq<RuleEntry>, b: seq<RuleEntry>)
    requires a != [] && b != [] && Fingerprints(sha256)
    requires CollisionFree(sha256, Texts(sha256, TreeOf(BatchTexts(a))), Texts(sha256, TreeOf(BatchTexts(b))))
    ensures BatchRootOf(sha256, a) == BatchRootOf(sha256, b) <==> Completed(a, |a|, 1) == Completed(b, |b|, 1)
  {
    RootsAgreeIff(sha256, a, b);
    CompletionsAgreeIff(a, b);
  }

  lemma {:induction false} CompletedTexts(es: seq<RuleEntry>, n: nat, b: nat)
    requires n > 0 && |es| == n * b
    ensures Completed(BatchTexts(es), n, b) == BatchTexts(Completed(es, n, b))
    decreases n
  {
    BlockSizes(n, b);
    if n == 1 {
    } else if n % 2 == 0 {
      CompletedTexts(es, n / 2, 2 * b);
    } else {
      var longer := es + es[|es| - b..];
      assert BatchTexts(longer) == BatchTexts(es) + BatchTexts(es)[|es| - b..];
      CompletedTexts(longer, (n + 1) / 2, 2 * b);
    }
  }

  lemma SameTextsSameEntries(a: seq<RuleEntry>, b: seq<RuleEntry>)
    ensures BatchTexts(a) == BatchTexts(b) <==> a == b
  {
    if BatchTexts(a) == BatchTexts(b) {
      assert |a| == |BatchTexts(a)| == |b|;
      forall i | 0 <= i < |a| ensures a[i] == b[i] {
        assert BatchTexts(a)[i] == BatchTexts(b)[i];
        LeafBytesPin(a[i], b[i]);
      }
    }
  }

  /** Lists without repetition are told apart by their completions. */
  lemma {:induction false} DistinctCompletion<T(!new)>(a: seq<T>, b: seq<T>)
    requires a != [] && b != [] && Distinct(a) && Distinct(b)
    requires Completed(a, |a|, 1) == Completed(b, |b|, 1)
    ensures a == b
  {
    CompletedExtends(a, |a|, 1);
    CompletedExtends(b, |b|, 1);
    if |a| <= |b| {
      PrefixWithin(a, b, Completed(a, |a|, 1));
    } else {
      PrefixWithin(b, a, Completed(a, |a|, 1));
    }
  }

  lemma PrefixWithin<T(!new)>(a: seq<T>, b: seq<T>, c: seq<T>)
    requires a <= c && b <= c && |a| <= |b| && forall x :: x in c ==> x in a
    ensures a == b || !Distinct(b)
  {
    assert a == b[..|a|];
    if |a| < |b| {
      var x := b[|a|];
      assert x in c by { assert c[|a|] == x; }
      var i := IndexOf(a, x);
      assert b[i] == b[..|a|][i];
    }
  }

  /** So the root of a batch pins its entries, all of them and in order, as long as none is repeated, which
      the validator sees to. */
  lemma RootPinsBatch(sha256: Bytes -> string, a: seq<RuleEntry>, b: seq<RuleEntry>)
    requires a != [] && b != [] && Distinct(a) && Distinct(b) && Fingerprints(sha256)
    requires CollisionFree(sha256, Texts(sha256, TreeOf(BatchTexts(a))), Texts(sha256, TreeOf(BatchTexts(b))))
    ensures BatchRootOf(sha256, a) == BatchRootOf(sha256, b) <==> a == b
  {
    RootPinsIff(sha256, a, b);
    if Completed(a, |a|, 1) == Completed(b, |b|, 1) { DistinctCompletion(a, b); }
  }

  lemma {:induction false} RootsForgetLength(sha256: Bytes -> string, h: seq<string>)
    requires |h| == 3
    ensures RootOf(sha256, h) == RootOf(sha256, h + [h[2]])
  {
    var p, q := PairHashes(sha256, h), PairHashes(sha256, h + [h[2]]);
    forall j | 0 <= j < 2 ensures p[j] == q[j] {
      assert p[j] == PairAt(sha256, h, j) && q[j] == PairAt(sha256, h + [h[2]], j);
    }
    assert p == q;
  }

  /** With a repeated entry it does not, whatever the hash: three entries have the root of the four in
      which the third stands twice. */
  lemma RootForgetsLength(sha256: Bytes -> string, x: RuleEntry, y: RuleEntry, z: RuleEntry)
    ensures BatchRootOf(sha256, [x, y, z]) == BatchRootOf(sha256, [x, y, z, z])
  {
    var h := BatchHashes(sha256, [x, y, z]);
    assert BatchHashes(sha256, [x, y, z, z]) == h + [h[2]];
    RootsForgetLength(sha256, h);
  }

  // ---- Proofs, read byte by byte ---------------------------------------------------

  /** b are the 32 bytes that the 64 digits of the fingerprint f stand for. */
  ghost predicate Decodes(f: string, b: Bytes) {
    && |f| == 71 && f[..7] == "sha256:" && |b| == 32
    && forall i :: 0 <= i < 32 ==> IsByte(f[7 + 2 * i], f[8 + 2 * i], b[i])
  }

  /** The bytes that are hashed for a leaf. */
  function LeafPreimage(e: RuleEntry): Bytes {
    [0] + Points("CORE_RULE_ANCHOR_LEAF_V1") + [0]
    + EncodeAll(Dumps(Obj([
        Member("rule_set_fingerprint", Str(e.ruleSet)), Member("rule_class", Str(e.ruleClass)),
        Member("visibility", Str(e.visibility)), Member("approval_fingerprints", Arr(Strings(e.approvals)))])))
  }

  /** h is the hash of the two children, the left one first. */
  ghost predicate IsParentHash(sha256: Bytes -> string, left: string, right: string, h: string) {
    exists a, b :: Decodes(left, a) && Decodes(right, b)
                   && h == sha256([1] + Points("CORE_RULE_ANCHOR_NODE_V1") + [0] + (a + b))
  }

  /** One node of a proof leads from one hash to the next. */
  ghost predicate NodeLeads(sha256: Bytes -> string, node: ProofNode, below: string, above: string) {
    && node.ProofNode? && node.hash.Some?
    && if node.position == "left" then IsParentHash(sha256, node.hash.value, below, above)
       else node.position == "right" && IsParentHash(sha256, below, node.hash.value, above)
  }

  /** The nodes lead through these hashes to the root. */
  ghost predicate Climbs(sha256: Bytes -> string, nodes: seq<ProofNode>, hashes: seq<string>, root: string) {
    && |hashes| == |nodes| + 1 && hashes[|nodes|] == root
    && forall i :: 0 <= i < |nodes| ==> NodeLeads(sha256, nodes[i], hashes[i], hashes[i + 1])
  }

  /** The claim states the hash of its leaf, and its nodes lead from there to the root. */
  ghost predicate ClaimSays(sha256: Bytes -> string, c: Claim, root: string, hashes: seq<string>) {
    && c.leafHash.Some? && c.leafHash.value == sha256(LeafPreimage(c.entry))
    && c.proof.Some? && Climbs(sha256, c.proof.value, hashes, root) && hashes[0] == c.leafHash.value
  }

  lemma LeafPreimageIs(e: RuleEntry)
    ensures LeafText(LeafBytes(e)) == LeafPreimage(e)
  {
    assert Zip(LEAF_KEYS, LeafFields(e)) == [
        Member("rule_set_fingerprint", Str(e.ruleSet)), Member("rule_class", Str(e.ruleClass)),
        Member("visibility", Str(e.visibility)), Member("approval_fingerprints", Arr(Strings(e.approvals)))];
  }

  lemma DigitAt(n: nat, c: char)
    requires n < 16 && c == "0123456789abcdef"[n]
    ensures IsHex(c) && Nibble(c) == n
  {
  }

  lemma DigitOf(c: char)
    requires IsHex(c)
    ensures c == "0123456789abcdef"[Nibble(c)]
  {
  }

  predicate IsByte(c: char, d: char, x: int) {
    0 <= x < 256 && c == "0123456789abcdef"[x / 16] && d == "0123456789abcdef"[x % 16]
  }

  lemma ByteIff(c: char, d: char, x: int)
    ensures IsByte(c, d, x) <==> IsHex(c) && IsHex(d) && x == 16 * Nibble(c) + Nibble(d)
  {
    if IsByte(c, d, x) {
      DigitAt(x / 16, c);
      DigitAt(x % 16, d);
    }
    if IsHex(c) && IsHex(d) && x == 16 * Nibble(c) + Nibble(d) {
      SplitByte(x, Nibble(c), Nibble(d));
      DigitOf(c);
      DigitOf(d);
    }
  }

  lemma SplitByte(x: int, a: int, b: int)
    requires x == 16 * a + b && 0 <= a < 16 && 0 <= b < 16
    ensures 0 <= x < 256 && x / 16 == a && x % 16 == b
  {
  }

  /** A fingerprint decodes to its bytes, and nothing else decodes. */
  lemma DecodesIff(f: string, b: Bytes)
    ensures Decodes(f, b) <==> IsFingerprint(f) && b == FingerprintBytes(f)
  {
    if |f| == 71 && |b| == 32 {
      forall i | 0 <= i < 32
        ensures IsByte(f[7 + 2 * i], f[8 + 2 * i], b[i])
                <==> IsHex(f[7 + 2 * i]) && IsHex(f[8 + 2 * i]) && b[i] == FingerprintBytes(f)[i]
      {
        ByteIff(f[7 + 2 * i], f[8 + 2 * i], b[i]);
      }
      AllHexIff(f);
      if Decodes(f, b) {
        forall i | 0 <= i < 32
          ensures IsHex(f[7 + 2 * i]) && IsHex(f[8 + 2 * i]) && b[i] == FingerprintBytes(f)[i]
        {
          assert IsByte(f[7 + 2 * i], f[8 + 2 * i], b[i]);
        }
        assert b == FingerprintBytes(f);
      }
      if IsFingerprint(f) && b == FingerprintBytes(f) {
        forall i | 0 <= i < 32 ensures IsByte(f[7 + 2 * i], f[8 + 2 * i], b[i]) {
          assert IsHex(f[7 + 2 * i]) && IsHex(f[8 + 2 * i]);
        }
      }
    }
  }

  lemma AllHexIff(f: string)
    requires |f| == 71
    ensures (forall i :: 7 <= i < 71 ==> IsHex(f[i]))
            <==> forall i :: 0 <= i < 32 ==> IsHex(f[7 + 2 * i]) && IsHex(f[8 + 2 * i])
  {
    if forall i :: 0 <= i < 32 ==> IsHex(f[7 + 2 * i]) && IsHex(f[8 + 2 * i]) {
      forall i | 7 <= i < 71 ensures IsHex(f[i]) {
        var k := (i - 7) / 2;
        assert IsHex(f[7 + 2 * k]) && IsHex(f[8 + 2 * k]);
        assert i == 7 + 2 * k || i == 8 + 2 * k;
      }
    }
  }

  lemma ParentHashIff(sha256: Bytes -> string, left: string, right: string, h: string)
    ensures IsParentHash(sha256, left, right, h)
            <==> IsFingerprint(left) && IsFingerprint(right) && h == ParentHash(sha256, left, right)
  {
    var a, b := FingerprintBytes(left), FingerprintBytes(right);
    DecodesIff(left, a);
    DecodesIff(right, b);
    forall x, y | Decodes(left, x) && Decodes(right, y) ensures x == a && y == b {
      DecodesIff(left, x);
      DecodesIff(right, y);
    }
  }

  lemma NodeIff(sha256: Bytes -> string, node: ProofNode, below: string, above: string)
    requires IsFingerprint(below)
    ensures NodeLeads(sha256, node, below, above) <==> NodeOk(node) && above == Apply(sha256, below, StepOf(node))
  {
    if node.ProofNode? && node.hash.Some? {
      ParentHashIff(sha256, node.hash.value, below, above);
      ParentHashIff(sha256, below, node.hash.value, above);
    }
  }

  /** The hashes on the way up. */
  function HashesUp(sha256: Bytes -> string, start: string, nodes: seq<ProofNode>): (r: seq<string>)
    requires NodesOk(nodes)
    ensures |r| == |nodes| + 1 && forall i :: 0 <= i <= |nodes| ==> r[i] == Fold(sha256, start, Steps(nodes)[..i])
  {
    seq(|nodes| + 1, i requires 0 <= i <= |nodes| => Fold(sha256, start, Steps(nodes)[..i]))
  }

  lemma {:induction false} FoldUp(sha256: Bytes -> string, start: string, steps: seq<Step>, i: nat)
    requires i < |steps|
    ensures Fold(sha256, start, steps[..i + 1]) == Apply(sha256, Fold(sha256, start, steps[..i]), steps[i])
  {
    FoldLast(sha256, start, steps[..i + 1], i);
    assert steps[..i + 1][..i] == steps[..i];
  }

  /** Nodes that climb are well formed and fold to the hashes they climb through. */
  lemma {:induction false} ClimbFolds(sha256: Bytes -> string, nodes: seq<ProofNode>, hashes: seq<string>, root: string,
                                      n: nat)
    requires Fingerprints(sha256) && Climbs(sha256, nodes, hashes, root) && IsFingerprint(hashes[0]) && n <= |nodes|
    ensures NodesOk(nodes[..n]) && Fold(sha256, hashes[0], Steps(nodes[..n])) == hashes[n] && IsFingerprint(hashes[n])
  {
    if n > 0 {
      ClimbFolds(sha256, nodes, hashes, root, n - 1);
      assert NodeLeads(sha256, nodes[n - 1], hashes[n - 1], hashes[n]);
      NodeIff(sha256, nodes[n - 1], hashes[n - 1], hashes[n]);
      LeadsOn(sha256, hashes[0], nodes, n - 1, hashes[n - 1]);
    }
  }

  lemma {:induction false} FoldsClimb(sha256: Bytes -> string, start: string, nodes: seq<ProofNode>, root: string)
    requires Fingerprints(sha256) && IsFingerprint(start) && Leads(sha256, start, nodes, root)
    ensures Climbs(sha256, nodes, HashesUp(sha256, start, nodes), root) && HashesUp(sha256, start, nodes)[0] == start
  {
    var hashes, steps := HashesUp(sha256, start, nodes), Steps(nodes);
    assert steps[..|nodes|] == steps && steps[..0] == [];
    forall i | 0 <= i < |nodes| ensures NodeLeads(sha256, nodes[i], hashes[i], hashes[i + 1]) {
      FoldUp(sha256, start, steps, i);
      FoldIsFingerprint(sha256, start, steps[..i]);
      NodeIff(sha256, nodes[i], hashes[i], hashes[i + 1]);
    }
  }

  /** A claim is accepted exactly when it says what it should, byte for byte. */
  lemma AcceptsIff(sha256: Bytes -> string, c: Claim, root: string)
    requires Fingerprints(sha256)
    ensures Accepts(sha256, c, root) <==> exists hashes :: ClaimSays(sha256, c, root, hashes)
  {
    LeafPreimageIs(c.entry);
    if Accepts(sha256, c, root) {
      FoldsClimb(sha256, c.leafHash.value, c.proof.value, root);
      assert ClaimSays(sha256, c, root, HashesUp(sha256, c.leafHash.value, c.proof.value));
    }
    if hashes :| ClaimSays(sha256, c, root, hashes) {
      ClimbFolds(sha256, c.proof.value, hashes, root, |c.proof.value|);
      assert c.proof.value[..|c.proof.value|] == c.proof.value;
    }
  }

  /** k without its last i binary digits. */
  function Halved(k: nat, i: nat): nat { if i == 0 then k else Halved(k / 2, i - 1) }

  /** The proof of leaf k turns left where the binary digits of k are 1. */
  lemma {:induction false} ProofTurns(sha256: Bytes -> string, level: seq<string>, k: nat, i: nat)
    requires k < |level| && i < |ProofOf(sha256, level, k)|
    ensures ProofOf(sha256, level, k)[i].side.LeftSide? <==> Halved(k, i) % 2 == 1
    decreases i
  {
    var above := ProofOf(sha256, PairHashes(sha256, level), k / 2);
    assert ProofOf(sha256, level, k) == [SiblingOf(level, k)] + above;
    if i > 0 {
      assert ProofOf(sha256, level, k)[i] == above[i - 1];
      ProofTurns(sha256, PairHashes(sha256, level), k / 2, i - 1);
    }
  }
}
