/**
  The Merkle tree hash and audit path of section 2.1 of RFC 6962, written out in
  full, as the reference for the level-by-level code of src/core/attribution.ts.
 */
module MerkleReference {
  import opened Text
  import opened Hashing
  import opened Merkle

  // --- The reference ---------------------------------------------------------

  /** The largest power of two below `n`. */
  function SplitPoint(n: nat): (k: nat)
    requires n >= 2
    ensures 1 <= k < n <= 2 * k
  {
    if n == 2 then 1 else 2 * SplitPoint((n + 1) / 2)
  }

  lemma {:induction false} SplitPointIsPower(n: nat) returns (e: nat)
    requires n >= 2
    ensures SplitPoint(n) == Pow2(e)
  {
    if n == 2 {
      e := 0;
    } else {
      var half := SplitPointIsPower((n + 1) / 2);
      e := half + 1;
    }
  }

  /** A leaf is hashed after the unit 0, the two halves of a longer list after the unit 1, left before right. */
  function TreeHash(h: Hash, xs: seq<Str>): Digest
    requires xs != []
  {
    if |xs| == 1 then h([0] + xs[0])
    else
      var k := SplitPoint(|xs|);
      h([1] + TreeHash(h, xs[..k]) + TreeHash(h, xs[k..]))
  }

  /** The hashes of the other halves, from the leaf at `m` up. */
  function AuditPath(h: Hash, xs: seq<Str>, m: nat): seq<ProofNode>
    requires m < |xs|
  {
    if |xs| == 1 then []
    else
      var k := SplitPoint(|xs|);
      if m < k then AuditPath(h, xs[..k], m) + [ProofNode(TreeHash(h, xs[k..]), Right)]
      else AuditPath(h, xs[k..], m - k) + [ProofNode(TreeHash(h, xs[..k]), Left)]
  }

  /** Hashing up from a leaf along a path, each sibling on its own side. */
  function PathHash(h: Hash, x: Str, path: seq<ProofNode>): Digest {
    if path == [] then h([0] + x)
    else
      var last, below := path[|path| - 1], PathHash(h, x, path[..|path| - 1]);
      match last.position
      case Left => h([1] + last.hash + below)
      case Right => h([1] + below + last.hash)
  }

  // --- Levels and halves -----------------------------------------------------

  lemma {:induction false} NextLevelSplits(h: Hash, level: seq<Digest>, k: nat)
    requires k <= |level| && k % 2 == 0
    ensures NextLevel(h, level)[..k / 2] == NextLevel(h, level[..k])
    ensures NextLevel(h, level)[k / 2..] == NextLevel(h, level[k..])
  {
    var next, left, right := NextLevel(h, level), NextLevel(h, level[..k]), NextLevel(h, level[k..]);
    assert |left| == k / 2 && |right| == |next| - k / 2;
    forall i | 0 <= i < |left| ensures next[i] == left[i] {
      assert 2 * i + 1 < k;
    }
    forall i | 0 <= i < |right| ensures next[k / 2 + i] == right[i] {
      assert 2 * (k / 2 + i) == k + 2 * i;
    }
  }

  lemma {:induction false} TopOfNext(h: Hash, level: seq<Digest>)
    requires |level| >= 1
    ensures |NextLevel(h, level)| >= 1 && Top(h, NextLevel(h, level)) == Top(h, level)
  {
    if |level| == 1 { assert NextLevel(h, level) == level; }
  }

  /** The top of a level is the hash of the tops of its two halves. */
  lemma {:induction false} TopSplits(h: Hash, level: seq<Digest>)
    requires |level| >= 2
    ensures var k := SplitPoint(|level|);
            Top(h, level) == h([1] + Top(h, level[..k]) + Top(h, level[k..]))
    decreases |level|
  {
    hide Top;
    hide NextLevel;
    if |level| == 2 {
      TopOfTwo(h, level);
    } else {
      var k, next := SplitPoint(|level|), NextLevel(h, level);
      NextLevelSize(h, level);
      TopSplits(h, next);
      NextLevelSplits(h, level, k);
      TopOfNext(h, level[..k]);
      TopOfNext(h, level[k..]);
      TopOfNext(h, level);
    }
  }

  lemma {:induction false} TopOfTwo(h: Hash, level: seq<Digest>)
    requires |level| == 2
    ensures Top(h, level) == h([1] + Top(h, level[..1]) + Top(h, level[1..]))
  {
    assert NextLevel(h, level) == [h([1] + level[0] + level[1])];
  }

  lemma {:induction false} SiblingsOfNext(h: Hash, level: seq<Digest>, index: nat)
    requires index < |level|
    ensures Siblings(h, level, index) == SiblingAt(level, index) + Siblings(h, NextLevel(h, level), index / 2)
  {
    if |level| == 1 { assert NextLevel(h, level) == level; }
  }

  /** The siblings on the way up are those within the half, then the top of the other half. */
  lemma {:induction false} SiblingsSplit(h: Hash, level: seq<Digest>, index: nat)
    requires |level| >= 2 && index < |level|
    ensures var k := SplitPoint(|level|);
            Siblings(h, level, index) ==
            if index < k then Siblings(h, level[..k], index) + [ProofNode(Top(h, level[k..]), Right)]
            else Siblings(h, level[k..], index - k) + [ProofNode(Top(h, level[..k]), Left)]
    decreases |level|
  {
    hide NextLevel;
    hide Siblings;
    hide SiblingAt;
    hide Top;
    if |level| == 2 {
      SiblingsOfTwo(h, level, index);
    } else {
      var k, next := SplitPoint(|level|), NextLevel(h, level);
      NextLevelSize(h, level);
      SiblingsOfNext(h, level, index);
      SiblingsSplit(h, next, index / 2);
      NextLevelSplits(h, level, k);
      SiblingWithinHalf(level, k, index);
      if index < k {
        SiblingsOfNext(h, level[..k], index);
        TopOfNext(h, level[k..]);
      } else {
        SiblingsOfNext(h, level[k..], index - k);
        TopOfNext(h, level[..k]);
      }
    }
  }

  lemma {:induction false} SiblingsOfTwo(h: Hash, level: seq<Digest>, index: nat)
    requires |level| == 2 && index < 2
    ensures Siblings(h, level, index) ==
            if index < 1 then Siblings(h, level[..1], index) + [ProofNode(Top(h, level[1..]), Right)]
            else Siblings(h, level[1..], index - 1) + [ProofNode(Top(h, level[..1]), Left)]
  {
    NextLevelSize(h, level);
    hide NextLevel;
    assert Siblings(h, NextLevel(h, level), index / 2) == [];
  }

  /** An even cut separates no siblings. */
  lemma {:induction false} SiblingWithinHalf(level: seq<Digest>, k: nat, index: nat)
    requires k % 2 == 0 && k < |level| && index < |level|
    ensures index < k ==> SiblingAt(level, index) == SiblingAt(level[..k], index) && index / 2 < k / 2
    ensures index >= k ==>
              SiblingAt(level, index) == SiblingAt(level[k..], index - k) && (index - k) / 2 == index / 2 - k / 2
  {
  }

  // --- The code meets the reference ------------------------------------------

  lemma {:induction false} LeafLevelSplits(h: Hash, xs: seq<Str>, k: nat)
    requires k <= |xs|
    ensures LeafLevel(h, xs)[..k] == LeafLevel(h, xs[..k]) && LeafLevel(h, xs)[k..] == LeafLevel(h, xs[k..])
  {
  }

  lemma {:induction false} TopIsTreeHash(h: Hash, xs: seq<Str>)
    requires xs != []
    ensures Top(h, LeafLevel(h, xs)) == TreeHash(h, xs)
    decreases |xs|
  {
    if |xs| == 1 {
    } else {
      var k := SplitPoint(|xs|);
      TopSplits(h, LeafLevel(h, xs));
      LeafLevelSplits(h, xs, k);
      TopIsTreeHash(h, xs[..k]);
      TopIsTreeHash(h, xs[k..]);
    }
  }

  /** In any order that puts lower leaves first, the leaves hash to the root; without leaves it is the
      hash of "empty". */
  lemma {:induction false} RootIsTreeHash(h: Hash, leaves: seq<Str>, xs: seq<Str>)
    requires multiset(xs) == multiset(leaves)
    requires forall i, j | 0 <= i < j < |xs| :: xs[i] == xs[j] || Before(xs[i], xs[j])
    ensures Root(h, leaves) == if leaves == [] then h(Ascii("empty")) else TreeHash(h, xs)
  {
    if leaves == [] {
    } else {
      assert |multiset(xs)| == |xs| && |multiset(leaves)| == |leaves|;
      UnitLeTotalOrder();
      SortByCorrect(leaves, UnitLe);
      forall i, j | 0 <= i < j < |xs| ensures UnitLe(xs[i], xs[j]) {
        UnitLtIsBefore(xs[i], xs[j]);
        LexReflexive(xs[i]);
      }
      SortedUnique(xs, Sorted(leaves), UnitLe);
      TopIsTreeHash(h, xs);
    }
  }

  /** The generated siblings are the audit path. */
  lemma {:induction false} SiblingsAreAuditPath(h: Hash, xs: seq<Str>, m: nat)
    requires m < |xs|
    ensures Siblings(h, LeafLevel(h, xs), m) == AuditPath(h, xs, m)
    decreases |xs|
  {
    if |xs| == 1 {
    } else {
      var k := SplitPoint(|xs|);
      SiblingsSplit(h, LeafLevel(h, xs), m);
      LeafLevelSplits(h, xs, k);
      TopIsTreeHash(h, xs[..k]);
      TopIsTreeHash(h, xs[k..]);
      if m < k { SiblingsAreAuditPath(h, xs[..k], m); } else { SiblingsAreAuditPath(h, xs[k..], m - k); }
    }
  }

  lemma {:induction false} FoldIsPathHash(h: Hash, x: Str, path: seq<ProofNode>)
    ensures Fold(h, h([0] + x), path) == PathHash(h, x, path)
    decreases |path|
  {
    if path == [] {
    } else {
      FoldIsPathHash(h, x, path[..|path| - 1]);
    }
  }

  /** A proof is accepted exactly when the path leads from the proved hash to the claimed root. */
  lemma {:induction false} AcceptsMeans(h: Hash, p: MerkleProof)
    ensures Accepts(h, p) <==> PathHash(h, p.receiptHash, p.proof) == p.root
  {
    FoldIsPathHash(h, p.receiptHash, p.proof);
  }

  /** Spelled out for at most one sibling. */
  lemma {:induction false} ShortProofs(h: Hash, x: Str, s: Str, root: Str, index: nat)
    ensures Accepts(h, MerkleProof(x, root, [], index)) <==> root == h([0] + x)
    ensures Accepts(h, MerkleProof(x, root, [ProofNode(s, Right)], index)) <==> root == h([1] + h([0] + x) + s)
    ensures Accepts(h, MerkleProof(x, root, [ProofNode(s, Left)], index)) <==> root == h([1] + s + h([0] + x))
  {
    var right, left := [ProofNode(s, Right)], [ProofNode(s, Left)];
    FoldIsPathHash(h, x, []);
    FoldIsPathHash(h, x, right);
    FoldIsPathHash(h, x, left);
    assert right[..0] == [] && left[..0] == [];
  }

  /** An audit path leads to the tree hash. */
  lemma {:induction false} AuditPathReaches(h: Hash, xs: seq<Str>, m: nat)
    requires m < |xs|
    ensures PathHash(h, xs[m], AuditPath(h, xs, m)) == TreeHash(h, xs)
    decreases |xs|
  {
    if |xs| == 1 {
    } else {
      var k := SplitPoint(|xs|);
      var path := AuditPath(h, xs, m);
      if m < k {
        AuditPathReaches(h, xs[..k], m);
        assert path[..|path| - 1] == AuditPath(h, xs[..k], m);
      } else {
        AuditPathReaches(h, xs[k..], m - k);
        assert path[..|path| - 1] == AuditPath(h, xs[k..], m - k);
      }
    }
  }

  // --- What is hashed --------------------------------------------------------

  /** A tree of n leaves hashes at most 2n - 1 strings: its leaves under 0, pairs of digests under 1. */
  lemma {:induction false} TreeInputsAre(h: Hash, t: Tree)
    ensures |TreeInputs(h, t)| <= 2 * |Leaves(t)| - 1
    ensures forall s | s in TreeInputs(h, t) ::
            (exists x :: x in Leaves(t) && s == [0] + x) || (|s| == 129 && s[0] == 1)
  {
    match t
    case Leaf(x) => assert x in Leaves(t);
    case Node(l, r) =>
      TreeInputsAre(h, l);
      TreeInputsAre(h, r);
      forall s | s in TreeInputs(h, l) + TreeInputs(h, r)
        ensures (exists x :: x in Leaves(t) && s == [0] + x) || (|s| == 129 && s[0] == 1)
      {
        if x :| x in Leaves(l) && s == [0] + x { assert x in Leaves(t); }
        if x :| x in Leaves(r) && s == [0] + x { assert x in Leaves(t); }
      }
  }

  /** Building over n leaves hashes at most 2n strings, and verifying one more than the path is long. */
  lemma {:induction false} InputsAreFew(h: Hash, leaves: seq<Str>, p: MerkleProof)
    ensures |BuildInputs(h, leaves)| <= if leaves == [] then 1 else 2 * |leaves| - 1
    ensures |VerifyInputs(h, p)| <= |p.proof| + 1
  {
    if leaves != [] {
      MerkleTreeLeaves(leaves);
      TreeInputsAre(h, MerkleTree(leaves));
    }
    FoldInputsAreFew(h, HashLeaf(h, p.receiptHash), p.proof);
  }

  lemma {:induction false} FoldInputsAreFew(h: Hash, start: Digest, nodes: seq<ProofNode>)
    ensures |FoldInputs(h, start, nodes)| <= |nodes|
    decreases |nodes|
  {
    if nodes == [] {
    } else {
      FoldInputsAreFew(h, start, nodes[..|nodes| - 1]);
    }
  }
}
