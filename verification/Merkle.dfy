/**
  The Merkle commitment of src/core/attribution.ts: leaves are sorted and hashed
  under prefix 0x00, internal nodes under 0x01, an odd node moves up unchanged.
 */
module Merkle {
  import opened Text
  import opened Hashing

  datatype Side = Left | Right
  datatype ProofNode = ProofNode(hash: Str, position: Side)
  datatype MerkleProof = MerkleProof(receiptHash: Str, root: Str, proof: seq<ProofNode>, index: nat)

  const EMPTY: Str := Ascii("empty")

  function LeafInput(x: Str): Str { [0] + x }
  function NodeInput(l: Str, r: Str): Str { [1] + l + r }
  function HashLeaf(h: Hash, x: Str): Digest { h(LeafInput(x)) }
  function HashNode(h: Hash, l: Str, r: Str): Digest { h(NodeInput(l, r)) }

  function Sorted(leaves: seq<Str>): (r: seq<Str>)
    ensures |r| == |leaves|
  {
    UnitLeTotalOrder();
    SortByCorrect(leaves, UnitLe);
    SortBy(leaves, UnitLe)
  }

  // --- Levels of digests -----------------------------------------------------

  function LeafLevel(h: Hash, xs: seq<Str>): seq<Digest> {
    seq(|xs|, i requires 0 <= i < |xs| => HashLeaf(h, xs[i]))
  }

  /** One round of pairing; a last node without a partner is promoted unchanged. */
  function NextLevel(h: Hash, level: seq<Digest>): seq<Digest> {
    seq((|level| + 1) / 2, i requires 0 <= i < (|level| + 1) / 2 =>
      if 2 * i + 1 < |level| then HashNode(h, level[2 * i], level[2 * i + 1]) else level[2 * i])
  }

  function Top(h: Hash, level: seq<Digest>): Digest
    requires |level| >= 1
    decreases |level|
  {
    if |level| == 1 then level[0] else Top(h, NextLevel(h, level))
  }

  function Root(h: Hash, leaves: seq<Str>): Digest {
    if leaves == [] then h(EMPTY)
    else Top(h, LeafLevel(h, Sorted(leaves)))
  }

  lemma {:induction false} SortedKeepsLeaves(leaves: seq<Str>)
    ensures multiset(Sorted(leaves)) == multiset(leaves)
    ensures forall x :: x in Sorted(leaves) <==> x in leaves
  {
    UnitLeTotalOrder();
    SortByCorrect(leaves, UnitLe);
    forall x ensures x in Sorted(leaves) <==> x in leaves {
      assert x in multiset(Sorted(leaves)) <==> x in multiset(leaves);
    }
  }

  /** Sorted means: every leaf equals or comes before all that follow it, in the order of code units. */
  lemma {:induction false} SortedInOrder(leaves: seq<Str>)
    ensures var xs := Sorted(leaves); forall i, j | 0 <= i < j < |xs| :: xs[i] == xs[j] || Before(xs[i], xs[j])
  {
    UnitLeTotalOrder();
    SortByCorrect(leaves, UnitLe);
    var xs := Sorted(leaves);
    forall i, j | 0 <= i < j < |xs| ensures xs[i] == xs[j] || Before(xs[i], xs[j]) {
      UnitLtIsBefore(xs[i], xs[j]);
    }
  }

  method PairUp(h: Hash, level: seq<Digest>) returns (next: seq<Digest>)
    ensures next == NextLevel(h, level)
  {
    next := [];
    var i := 0;
    while i < |level|
      invariant 0 <= i <= |level| + 1 && i % 2 == 0
      invariant |next| == i / 2 && i / 2 <= (|level| + 1) / 2
      invariant next == NextLevel(h, level)[..i / 2]
    {
      next := next + [if i + 1 < |level| then HashNode(h, level[i], level[i + 1]) else level[i]];
      i := i + 2;
    }
  }

  method BuildMerkleRoot(h: Hash, leaves: seq<Str>) returns (root: Digest)
    ensures root == Root(h, leaves)
  {
    if |leaves| == 0 { return h(EMPTY); }
    SortedKeepsLeaves(leaves);
    var level := LeafLevel(h, Sorted(leaves));
    while |level| > 1
      invariant |level| >= 1
      invariant Top(h, level) == Root(h, leaves)
      decreases |level|
    {
      level := PairUp(h, level);
    }
    return level[0];
  }

  // --- Verifying -------------------------------------------------------------

  function StepInput(acc: Digest, node: ProofNode): Str {
    if node.position == Left then NodeInput(node.hash, acc) else NodeInput(acc, node.hash)
  }

  function Fold(h: Hash, start: Digest, nodes: seq<ProofNode>): Digest {
    if nodes == [] then start
    else h(StepInput(Fold(h, start, nodes[..|nodes| - 1]), nodes[|nodes| - 1]))
  }

  /** The proof is accepted when hashing up from the leaf reaches the claimed root. */
  predicate Accepts(h: Hash, p: MerkleProof) {
    Fold(h, HashLeaf(h, p.receiptHash), p.proof) == p.root
  }

  method VerifyMerkleProof(h: Hash, p: MerkleProof) returns (ok: bool)
    ensures ok <==> Accepts(h, p)
  {
    var hash := HashLeaf(h, p.receiptHash);
    for i := 0 to |p.proof|
      invariant hash == Fold(h, HashLeaf(h, p.receiptHash), p.proof[..i])
    {
      var node := p.proof[i];
      assert p.proof[..i + 1][..i] == p.proof[..i];
      hash := if node.position == Left then HashNode(h, node.hash, hash) else HashNode(h, hash, node.hash);
    }
    assert p.proof[..|p.proof|] == p.proof;
    return hash == p.root;
  }

  // --- The tree behind the levels --------------------------------------------

  datatype Tree = Leaf(x: Str) | Node(left: Tree, right: Tree)

  ghost function TreeDigest(h: Hash, t: Tree): Digest {
    match t
    case Leaf(x) => HashLeaf(h, x)
    case Node(l, r) => HashNode(h, TreeDigest(h, l), TreeDigest(h, r))
  }

  ghost function Leaves(t: Tree): seq<Str> {
    match t
    case Leaf(x) => [x]
    case Node(l, r) => Leaves(l) + Leaves(r)
  }

  /** Every string hashed while computing the digest of `t`. */
  ghost function TreeInputs(h: Hash, t: Tree): set<Str> {
    match t
    case Leaf(x) => {LeafInput(x)}
    case Node(l, r) => {NodeInput(TreeDigest(h, l), TreeDigest(h, r))} + TreeInputs(h, l) + TreeInputs(h, r)
  }

  ghost function NextTrees(ts: seq<Tree>): seq<Tree> {
    seq((|ts| + 1) / 2, i requires 0 <= i < (|ts| + 1) / 2 =>
      if 2 * i + 1 < |ts| then Node(ts[2 * i], ts[2 * i + 1]) else ts[2 * i])
  }

  ghost function TopTree(ts: seq<Tree>): Tree
    requires |ts| >= 1
    decreases |ts|
  {
    if |ts| == 1 then ts[0] else TopTree(NextTrees(ts))
  }

  ghost function LeafTrees(xs: seq<Str>): seq<Tree> {
    seq(|xs|, i requires 0 <= i < |xs| => Leaf(xs[i]))
  }

  ghost function MerkleTree(leaves: seq<Str>): Tree
    requires leaves != []
  {
    TopTree(LeafTrees(Sorted(leaves)))
  }

  /** Every string hashed by BuildMerkleRoot on `leaves`. */
  ghost function BuildInputs(h: Hash, leaves: seq<Str>): set<Str> {
    if leaves == [] then {EMPTY} else TreeInputs(h, MerkleTree(leaves))
  }

  /** Every string hashed by VerifyMerkleProof on a leaf and a list of siblings. */
  ghost function FoldInputs(h: Hash, start: Digest, nodes: seq<ProofNode>): set<Str> {
    if nodes == [] then {}
    else
      var n := |nodes| - 1;
      FoldInputs(h, start, nodes[..n]) + {StepInput(Fold(h, start, nodes[..n]), nodes[n])}
  }

  ghost function VerifyInputs(h: Hash, p: MerkleProof): set<Str> {
    {LeafInput(p.receiptHash)} + FoldInputs(h, HashLeaf(h, p.receiptHash), p.proof)
  }

  ghost predicate LevelOf(h: Hash, level: seq<Digest>, ts: seq<Tree>) {
    |level| == |ts| && forall i | 0 <= i < |ts| :: level[i] == TreeDigest(h, ts[i])
  }

  lemma {:induction false} TopIsTreeDigest(h: Hash, level: seq<Digest>, ts: seq<Tree>)
    requires |level| >= 1 && LevelOf(h, level, ts)
    ensures Top(h, level) == TreeDigest(h, TopTree(ts))
    decreases |level|
  {
    if |level| <= 1 {
    } else {
      TopIsTreeDigest(h, NextLevel(h, level), NextTrees(ts));
    }
  }

  lemma {:induction false} RootIsTreeDigest(h: Hash, leaves: seq<Str>)
    requires leaves != []
    ensures Root(h, leaves) == TreeDigest(h, MerkleTree(leaves))
  {
    SortedKeepsLeaves(leaves);
    TopIsTreeDigest(h, LeafLevel(h, Sorted(leaves)), LeafTrees(Sorted(leaves)));
  }

  ghost function Frontier(ts: seq<Tree>): seq<Str> {
    if ts == [] then [] else Leaves(ts[0]) + Frontier(ts[1..])
  }

  lemma {:induction false} PairingKeepsFrontier(ts: seq<Tree>)
    ensures Frontier(NextTrees(ts)) == Frontier(ts)
    decreases |ts|
  {
    if |ts| >= 2 {
      PairingKeepsFrontier(ts[2..]);
      assert NextTrees(ts) == [Node(ts[0], ts[1])] + NextTrees(ts[2..]);
      assert ts[1..][1..] == ts[2..];
    } else if |ts| == 1 {
      assert NextTrees(ts) == ts;
    }
  }

  lemma {:induction false} TopTreeLeaves(ts: seq<Tree>)
    requires |ts| >= 1
    ensures Leaves(TopTree(ts)) == Frontier(ts)
    decreases |ts|
  {
    if |ts| == 1 {
      assert Frontier(ts) == Leaves(ts[0]) + [];
    } else {
      PairingKeepsFrontier(ts);
      TopTreeLeaves(NextTrees(ts));
    }
  }

  lemma {:induction false} LeafTreesFrontier(xs: seq<Str>)
    ensures Frontier(LeafTrees(xs)) == xs
  {
    if xs == [] {
    } else {
      LeafTreesFrontier(xs[1..]);
      assert LeafTrees(xs)[1..] == LeafTrees(xs[1..]);
    }
  }

  /** The tree under the root holds exactly the leaves, in sorted order. */
  lemma {:induction false} MerkleTreeLeaves(leaves: seq<Str>)
    requires leaves != []
    ensures Leaves(MerkleTree(leaves)) == Sorted(leaves)
  {
    SortedKeepsLeaves(leaves);
    TopTreeLeaves(LeafTrees(Sorted(leaves)));
    LeafTreesFrontier(Sorted(leaves));
  }

  // --- Soundness -------------------------------------------------------------

  /** Only the running hash has a known length, and that alone splits the preimage. */
  lemma {:induction false} StepSplits(acc: Digest, node: ProofNode, l: Digest, r: Digest)
    requires StepInput(acc, node) == NodeInput(l, r)
    ensures acc == if node.position == Left then r else l
  {
    var s := NodeInput(l, r);
    if node.position == Left {
      assert s[|s| - 64..] == acc && s[|s| - 64..] == r;
    } else {
      assert s[1..65] == acc && s[1..65] == l;
    }
  }

  lemma {:induction false} PathSound(h: Hash, t: Tree, x: Str, nodes: seq<ProofNode>)
    requires Fold(h, HashLeaf(h, x), nodes) == TreeDigest(h, t)
    ensures x in Leaves(t) || Collides(h, TreeInputs(h, t), {LeafInput(x)} + FoldInputs(h, HashLeaf(h, x), nodes))
  {
    var start := HashLeaf(h, x);
    var used := {LeafInput(x)} + FoldInputs(h, start, nodes);
    if nodes == [] {
      match t
      case Leaf(y) =>
        assert LeafInput(x)[1..] == x && LeafInput(y)[1..] == y;
        assert LeafInput(y) in TreeInputs(h, t) && LeafInput(x) in used;
      case Node(l, r) =>
        var a := NodeInput(TreeDigest(h, l), TreeDigest(h, r));
        assert a in TreeInputs(h, t) && LeafInput(x) in used && a[0] != LeafInput(x)[0];
    } else {
      var n := |nodes| - 1;
      var acc := Fold(h, start, nodes[..n]);
      var b := StepInput(acc, nodes[n]);
      assert b in used && b[0] == 1;
      match t
      case Leaf(y) =>
        assert LeafInput(y) in TreeInputs(h, t) && LeafInput(y)[0] == 0;
      case Node(l, r) =>
        var a := NodeInput(TreeDigest(h, l), TreeDigest(h, r));
        assert a in TreeInputs(h, t);
        if a == b {
          StepSplits(acc, nodes[n], TreeDigest(h, l), TreeDigest(h, r));
          var child := if nodes[n].position == Left then r else l;
          PathSound(h, child, x, nodes[..n]);
          if Collides(h, TreeInputs(h, child), {LeafInput(x)} + FoldInputs(h, start, nodes[..n])) {
            CollidesMono(h, TreeInputs(h, child), {LeafInput(x)} + FoldInputs(h, start, nodes[..n]), TreeInputs(h, t),
                used);
          }
        }
    }
  }

  /** An accepted proof for the root of `leaves` proves membership, or building and verifying collide. */
  lemma {:induction false} Soundness(h: Hash, leaves: seq<Str>, p: MerkleProof)
    requires Accepts(h, p) && p.root == Root(h, leaves)
    ensures p.receiptHash in leaves || Collides(h, BuildInputs(h, leaves), VerifyInputs(h, p))
  {
    var start := HashLeaf(h, p.receiptHash);
    if leaves == [] {
      var b := if p.proof == [] then LeafInput(p.receiptHash)
               else StepInput(Fold(h, start, p.proof[..|p.proof| - 1]), p.proof[|p.proof| - 1]);
      assert b in VerifyInputs(h, p) && b[0] <= 1;
      assert EMPTY in BuildInputs(h, leaves) && EMPTY[0] == 0x65;
    } else {
      RootIsTreeDigest(h, leaves);
      MerkleTreeLeaves(leaves);
      SortedKeepsLeaves(leaves);
      PathSound(h, MerkleTree(leaves), p.receiptHash, p.proof);
    }
  }

  // --- Binding ---------------------------------------------------------------

  lemma {:induction false} TreeBinding(h: Hash, s: Tree, t: Tree)
    requires TreeDigest(h, s) == TreeDigest(h, t)
    ensures s == t || Collides(h, TreeInputs(h, s), TreeInputs(h, t))
  {
    match (s, t)
    case (Leaf(x), Leaf(y)) =>
      assert LeafInput(x)[1..] == x && LeafInput(y)[1..] == y;
      assert LeafInput(x) in TreeInputs(h, s) && LeafInput(y) in TreeInputs(h, t);
    case (Leaf(x), Node(l, r)) =>
      assert LeafInput(x) in TreeInputs(h, s) && LeafInput(x)[0] == 0;
      assert NodeInput(TreeDigest(h, l), TreeDigest(h, r)) in TreeInputs(h, t);
    case (Node(l, r), Leaf(y)) =>
      assert LeafInput(y) in TreeInputs(h, t) && LeafInput(y)[0] == 0;
      assert NodeInput(TreeDigest(h, l), TreeDigest(h, r)) in TreeInputs(h, s);
    case (Node(l, r), Node(l', r')) =>
      var a := NodeInput(TreeDigest(h, l), TreeDigest(h, r));
      var b := NodeInput(TreeDigest(h, l'), TreeDigest(h, r'));
      assert a in TreeInputs(h, s) && b in TreeInputs(h, t);
      if a == b {
        assert a[1..65] == TreeDigest(h, l) && b[1..65] == TreeDigest(h, l');
        assert a[65..] == TreeDigest(h, r) && b[65..] == TreeDigest(h, r');
        TreeBinding(h, l, l');
        TreeBinding(h, r, r');
        if l != l' {
          CollidesMono(h, TreeInputs(h, l), TreeInputs(h, l'), TreeInputs(h, s), TreeInputs(h, t));
        } else if r != r' {
          CollidesMono(h, TreeInputs(h, r), TreeInputs(h, r'), TreeInputs(h, s), TreeInputs(h, t));
        }
      }
  }

  lemma {:induction false} EmptyRootIsSeparate(h: Hash, t: Tree)
    requires h(EMPTY) == TreeDigest(h, t)
    ensures Collides(h, {EMPTY}, TreeInputs(h, t)) && Collides(h, TreeInputs(h, t), {EMPTY})
  {
    var b := match t case Leaf(x) => LeafInput(x) case Node(l, r) => NodeInput(TreeDigest(h, l), TreeDigest(h, r));
    assert b in TreeInputs(h, t) && b[0] <= 1 && EMPTY[0] == 0x65 && EMPTY in {EMPTY};
  }

  /** Equal roots mean equal multisets of leaves, or the two builds collide. */
  lemma {:induction false} Binding(h: Hash, xs: seq<Str>, ys: seq<Str>)
    requires Root(h, xs) == Root(h, ys)
    ensures multiset(xs) == multiset(ys) || Collides(h, BuildInputs(h, xs), BuildInputs(h, ys))
  {
    if xs != [] { RootIsTreeDigest(h, xs); MerkleTreeLeaves(xs); SortedKeepsLeaves(xs); }
    if ys != [] { RootIsTreeDigest(h, ys); MerkleTreeLeaves(ys); SortedKeepsLeaves(ys); }
    if xs != [] && ys != [] {
      TreeBinding(h, MerkleTree(xs), MerkleTree(ys));
    } else if xs != [] {
      EmptyRootIsSeparate(h, MerkleTree(xs));
    } else if ys != [] {
      EmptyRootIsSeparate(h, MerkleTree(ys));
    }
  }

  /** The order of the leaves never matters. */
  lemma {:induction false} PermutationSameRoot(h: Hash, xs: seq<Str>, ys: seq<Str>)
    requires multiset(xs) == multiset(ys)
    ensures Root(h, xs) == Root(h, ys)
  {
    UnitLeTotalOrder();
    SortByPermutation(xs, ys, UnitLe);
    assert |multiset(xs)| == |multiset(ys)|;
  }

  // --- Completeness ----------------------------------------------------------

  function Pow2(k: nat): nat { if k == 0 then 1 else 2 * Pow2(k - 1) }

  /** Hashing a node with its sibling, or promoting it, gives its parent. */
  lemma {:induction false} ParentOf(h: Hash, level: seq<Digest>, index: nat)
    requires index < |level|
    ensures var next := NextLevel(h, level);
            if index % 2 == 1 then h(StepInput(level[index], ProofNode(level[index - 1], Left))) == next[index / 2]
            else if index + 1 < |level| then
                h(StepInput(level[index], ProofNode(level[index + 1], Right))) == next[index / 2]
            else next[index / 2] == level[index]
  {
    assert index == 2 * (index / 2) + index % 2;
  }

  lemma {:induction false} FoldSnoc(h: Hash, start: Digest, nodes: seq<ProofNode>, node: ProofNode)
    ensures Fold(h, start, nodes + [node]) == h(StepInput(Fold(h, start, nodes), node))
  {
    assert (nodes + [node])[..|nodes|] == nodes;
  }

  /** `rounds` halvings of a level of at most 2^k nodes leave at most 2^(k - rounds). */
  ghost predicate Halved(size: nat, rounds: nat, now: nat) {
    forall k: nat | size <= Pow2(k) :: rounds <= k && now <= Pow2(k - rounds)
  }

  lemma {:induction false} HalveAgain(size: nat, rounds: nat, now: nat)
    requires Halved(size, rounds, now) && now > 1
    ensures Halved(size, rounds + 1, (now + 1) / 2)
  {
    forall k: nat | size <= Pow2(k) ensures rounds + 1 <= k && (now + 1) / 2 <= Pow2(k - rounds - 1) {
      assert rounds <= k && now <= Pow2(k - rounds);
    }
  }

  method IndexOf(xs: seq<Str>, x: Str) returns (r: Option<nat>)
    ensures r.None? <==> x !in xs
    ensures r.Some? ==> r.value < |xs| && xs[r.value] == x && x !in xs[..r.value]
  {
    for i := 0 to |xs|
      invariant x !in xs[..i]
    {
      if xs[i] == x { return Some(i); }
    }
    return None;
  }

  /** The sibling of a node in its level, if it has one. */
  function SiblingAt(level: seq<Digest>, index: nat): seq<ProofNode>
    requires index < |level|
  {
    if index % 2 == 1 then [ProofNode(level[index - 1], Left)]
    else if index + 1 < |level| then [ProofNode(level[index + 1], Right)]
    else []
  }

  /** The siblings met on the way up. */
  function Siblings(h: Hash, level: seq<Digest>, index: nat): seq<ProofNode>
    requires index < |level|
    decreases |level|
  {
    if |level| == 1 then [] else SiblingAt(level, index) + Siblings(h, NextLevel(h, level), index / 2)
  }

  /** One round up: the same top, one sibling fewer to meet, the parent reached, half the nodes. */
  lemma {:induction false} ClimbStep(h: Hash, level: seq<Digest>, index: nat, start: Digest, proof: seq<ProofNode>)
    requires |level| > 1 && index < |level| && Fold(h, start, proof) == level[index]
    ensures var next, more := NextLevel(h, level), proof + SiblingAt(level, index);
            && |next| == (|level| + 1) / 2 && index / 2 < |next| < |level|
            && Top(h, next) == Top(h, level)
            && Fold(h, start, more) == next[index / 2]
            && more + Siblings(h, next, index / 2) == proof + Siblings(h, level, index)
  {
    hide Fold;
    NextLevelSize(h, level);
    ClimbFold(h, level, index, start, proof);
    hide NextLevel;
    hide SiblingAt;
    var here, above := SiblingAt(level, index), Siblings(h, NextLevel(h, level), index / 2);
    assert Siblings(h, level, index) == here + above;
    assert proof + here + above == proof + (here + above);
  }

  lemma {:induction false} NextLevelSize(h: Hash, level: seq<Digest>)
    ensures |NextLevel(h, level)| == (|level| + 1) / 2
  {
  }

  lemma {:induction false} ClimbFold(h: Hash, level: seq<Digest>, index: nat, start: Digest, proof: seq<ProofNode>)
    requires index < |level| && Fold(h, start, proof) == level[index]
    ensures index / 2 < |NextLevel(h, level)|
    ensures Fold(h, start, proof + SiblingAt(level, index)) == NextLevel(h, level)[index / 2]
  {
    NextLevelSize(h, level);
    ParentOf(h, level, index);
    var here := SiblingAt(level, index);
    hide Fold;
    hide NextLevel;
    if here == [] {
      assert proof + here == proof;
    } else {
      FoldSnoc(h, start, proof, here[0]);
      assert here == [here[0]];
    }
  }

  /** The climbing loop of generateMerkleProof: siblings of `start[target]` up to the root. */
  method Climb(h: Hash, start: seq<Digest>, target: nat) returns (proof: seq<ProofNode>, root: Digest)
    requires target < |start|
    ensures root == Top(h, start) == Fold(h, start[target], proof)
    ensures proof == Siblings(h, start, target)
    ensures forall k: nat | |start| <= Pow2(k) :: |proof| <= k
  {
    hide NextLevel;
    hide Siblings;
    hide Top;
    hide Fold;
    hide Halved;
    proof := [];
    var level, index := start, target;
    ghost var rounds := 0;
    assert Fold(h, start[target], []) == start[target] by { NothingFolded(h, start[target]); }
    assert Halved(|start|, 0, |start|) by { NothingHalved(|start|); }
    while |level| > 1
      invariant 0 <= index < |level|
      invariant Top(h, level) == Top(h, start)
      invariant Fold(h, start[target], proof) == level[index]
      invariant |proof| <= rounds && Halved(|start|, rounds, |level|)
      invariant proof + Siblings(h, level, index) == Siblings(h, start, target)
      decreases |level|
    {
      ClimbStep(h, level, index, start[target], proof);
      var isRightChild := index % 2 == 1;
      var sibling := if isRightChild then index - 1 else index + 1;
      if sibling < |level| {
        proof := proof + [ProofNode(level[sibling], if isRightChild then Left else Right)];
      } else {
        assert proof + [] == proof;
      }
      HalveAgain(|start|, rounds, |level|);
      rounds := rounds + 1;
      level := PairUp(h, level);
      index := index / 2;
    }
    root := level[0];
    Summit(h, level, start[target], proof);
    HalvedBounds(|start|, rounds, |level|);
  }

  lemma {:induction false} NothingFolded(h: Hash, start: Digest)
    ensures Fold(h, start, []) == start
  {
  }

  lemma {:induction false} NothingHalved(size: nat)
    ensures Halved(size, 0, size)
  {
  }

  lemma {:induction false} HalvedBounds(size: nat, rounds: nat, now: nat)
    requires Halved(size, rounds, now)
    ensures forall k: nat | size <= Pow2(k) :: rounds <= k
  {
  }

  lemma {:induction false} Summit(h: Hash, level: seq<Digest>, start: Digest, proof: seq<ProofNode>)
    requires |level| == 1
    ensures Top(h, level) == level[0] && Siblings(h, level, 0) == []
    ensures proof + [] == proof
  {
  }

  /** A proof exists exactly for the members; it is accepted, carries the root, and is short. */
  method GenerateMerkleProof(h: Hash, leaves: seq<Str>, target: Str) returns (r: Option<MerkleProof>)
    ensures r.Some? <==> target in leaves
    ensures r.Some? ==>
              && r.value.receiptHash == target
              && r.value.root == Root(h, leaves)
              && Accepts(h, r.value)
              && r.value.index < |leaves|
              && Sorted(leaves)[r.value.index] == target
              && target !in Sorted(leaves)[..r.value.index]
    ensures r.Some? ==> r.value.proof == Siblings(h, LeafLevel(h, Sorted(leaves)), r.value.index)
    ensures r.Some? ==> forall k: nat | |leaves| <= Pow2(k) :: |r.value.proof| <= k
  {
    if |leaves| == 0 { return None; }
    var sorted := Sorted(leaves);
    SortedKeepsLeaves(leaves);
    var found := IndexOf(sorted, target);
    if found.None? { return None; }
    var start := LeafLevel(h, sorted);
    var proof, root := Climb(h, start, found.value);
    return Some(MerkleProof(target, root, proof, found.value));
  }
}
