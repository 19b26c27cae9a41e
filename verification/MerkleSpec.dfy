/**
 What the incremental trees are for: the root of the full binary tree over all leaves, padded with
 the zero leaf, and the authentication paths in that tree. The node hash is a parameter.
 */
module MerkleSpec {
  import opened Bits
  import opened Wrappers

  /** A field element, by its canonical integer. No result here needs an upper bound on it. */
  type Fr = nat

  datatype MerkleProof = MerkleProof(leaf: Fr, leafIndex: nat, siblings: seq<Fr>, pathBits: seq<bool>, root: Fr)

  /** Two argument pairs of the node hash. */
  datatype Collision = Collision(l: Fr, r: Fr, l': Fr, r': Fr)

  /** The node hash, and the value of an absent leaf. */
  datatype Hashing = Hashing(node: (Fr, Fr) -> Fr, seed: Fr) {

    /** Node number pos on a level of the full tree; leaves sit on level 0. */
    function Subtree(leaves: seq<Fr>, level: nat, pos: nat): Fr
      decreases level
    {
      if level == 0 then
        if pos < |leaves| then leaves[pos] else seed
      else
        node(Subtree(leaves, level - 1, 2 * pos), Subtree(leaves, level - 1, 2 * pos + 1))
    }

    function Root(leaves: seq<Fr>, depth: nat): Fr {
      Subtree(leaves, depth, 0)
    }

    /** The root of an empty subtree. */
    function Zero(level: nat): Fr {
      Subtree([], level, 0)
    }

    /** The last left child on a level whose leaves are all present, and 0 while there is none. */
    function FrontierAt(leaves: seq<Fr>, level: nat): Fr {
      var complete := Shr(|leaves|, level);
      if complete == 0 then 0 else Subtree(leaves, level, (complete - 1) / 2 * 2)
    }

    /** f holds the frontier of a leaf list, stale entries included; it is a function of that list. */
    ghost predicate IsFrontier(f: seq<Fr>, leaves: seq<Fr>, depth: nat) {
      && |f| == depth
      && forall l {:trigger f[l]} :: 0 <= l < depth ==> f[l] == FrontierAt(leaves, l)
    }

    /** The authentication path of a position: beside each ancestor, the real sibling. */
    ghost predicate IsPathOf(leaves: seq<Fr>, depth: nat, index: nat, p: MerkleProof) {
      && |p.siblings| == |p.pathBits| == depth
      && p.leaf == Subtree(leaves, 0, index)
      && p.root == Root(leaves, depth)
      && (forall l {:trigger p.siblings[l]} :: 0 <= l < depth ==>
            p.siblings[l] == SiblingOf(this, leaves, index, l))
      && (forall l {:trigger p.pathBits[l]} :: 0 <= l < depth ==> p.pathBits[l] == (Bit(index, l) == 1))
    }

    /** The value a verifier holds after the first k levels of a path. */
    function Fold(p: MerkleProof, k: nat): Fr
      requires k <= |p.siblings| == |p.pathBits|
    {
      if k == 0 then p.leaf
      else if p.pathBits[k - 1] then node(p.siblings[k - 1], Fold(p, k - 1))
      else node(Fold(p, k - 1), p.siblings[k - 1])
    }

    predicate Accepts(p: MerkleProof)
      requires |p.siblings| == |p.pathBits|
    {
      Fold(p, |p.siblings|) == p.root
    }

    predicate IsCollision(c: Collision) {
      (c.l, c.r) != (c.l', c.r') && node(c.l, c.r) == node(c.l', c.r')
    }

    ghost predicate Injective() {
      forall a, b, c, d :: node(a, b) == node(c, d) ==> a == c && b == d
    }

    /** What a verifier hashes to climb from level k to level k + 1. */
    function Children(p: MerkleProof, k: nat): (Fr, Fr)
      requires k < |p.siblings| == |p.pathBits|
    {
      if p.pathBits[k] then (p.siblings[k], Fold(p, k)) else (Fold(p, k), p.siblings[k])
    }

    /** The pairs that the verifier and the real tree hash at the node above level k. */
    function ParentAt(leaves: seq<Fr>, p: MerkleProof, k: nat): Collision
      requires k < |p.siblings| == |p.pathBits|
    {
      var (l, r) := Children(p, k);
      var pos := PosFrom(p.pathBits, k + 1);
      Collision(l, r, Subtree(leaves, k, 2 * pos), Subtree(leaves, k, 2 * pos + 1))
    }

    predicate Differs(leaves: seq<Fr>, p: MerkleProof, k: nat)
      requires k < |p.siblings| == |p.pathBits|
    {
      var c := ParentAt(leaves, p, k);
      (c.l, c.r) != (c.l', c.r')
    }

    /**
     Walks a path down from level k beside the real tree to the first level where the verifier and the
     tree hash different children.
     */
    function FirstDifference(leaves: seq<Fr>, p: MerkleProof, k: nat): (r: Option<nat>)
      requires k <= |p.siblings| == |p.pathBits|
      ensures r.Some? ==> r.value < k && Differs(leaves, p, r.value)
      ensures forall i {:trigger Differs(leaves, p, i)} :: (if r.Some? then r.value + 1 else 0) <= i < k ==> !Differs(leaves, p, i)
    {
      if k == 0 then None
      else if Differs(leaves, p, k - 1) then Some(k - 1)
      else FirstDifference(leaves, p, k - 1)
    }
  }

  function Sibling(pos: nat): nat {
    if pos % 2 == 1 then pos - 1 else pos + 1
  }

  /** The node beside the ancestor of a leaf on one level. */
  function SiblingOf(h: Hashing, leaves: seq<Fr>, index: nat, level: nat): Fr {
    h.Subtree(leaves, level, Sibling(Shr(index, level)))
  }

  /** The node position that the path bits from level k upwards spell. */
  function PosFrom(pathBits: seq<bool>, k: nat): nat
    requires k <= |pathBits|
    decreases |pathBits| - k
  {
    if k == |pathBits| then 0 else (if pathBits[k] then 1 else 0) + 2 * PosFrom(pathBits, k + 1)
  }

  /** How many nodes of a level have a leaf below them. */
  function LevelLength(count: nat, level: nat): nat {
    if level == 0 then count else (LevelLength(count, level - 1) + 1) / 2
  }

  // ----- The full tree -----

  lemma {:induction false} EmptySubtree(h: Hashing, leaves: seq<Fr>, level: nat, pos: nat)
    requires pos >= LevelLength(|leaves|, level)
    ensures h.Subtree(leaves, level, pos) == h.Zero(level)
    decreases level
  {
    if level > 0 {
      EmptySubtree(h, leaves, level - 1, 2 * pos);
      EmptySubtree(h, leaves, level - 1, 2 * pos + 1);
      LevelLengthOfNone(level - 1);
      EmptySubtree(h, [], level - 1, 1);
    }
  }

  lemma {:induction false} LevelLengthOfNone(level: nat)
    ensures LevelLength(0, level) == 0
  {
    if level > 0 {
      LevelLengthOfNone(level - 1);
    }
  }

  /** Each zero-cache entry is the hash of two copies of the one below. */
  lemma ZeroStep(h: Hashing, level: nat)
    ensures h.Zero(level + 1) == h.node(h.Zero(level), h.Zero(level))
  {
    LevelLengthOfNone(level);
    EmptySubtree(h, [], level, 1);
  }

  lemma {:induction false} LevelLengthSucc(n: nat, level: nat)
    ensures LevelLength(n + 1, level) == Shr(n, level) + 1
  {
    if level > 0 {
      LevelLengthSucc(n, level - 1);
    }
  }

  /** A node whose leaves are all present no longer depends on what is appended. */
  lemma {:induction false} CompleteSubtree(h: Hashing, leaves: seq<Fr>, more: seq<Fr>, level: nat, pos: nat)
    requires pos < Shr(|leaves|, level)
    ensures h.Subtree(leaves + more, level, pos) == h.Subtree(leaves, level, pos)
  {
    if level > 0 {
      CompleteSubtree(h, leaves, more, level - 1, 2 * pos);
      CompleteSubtree(h, leaves, more, level - 1, 2 * pos + 1);
    }
  }

  /** Two leaf lists that agree once padded have the same nodes. */
  lemma {:induction false} SubtreeExtensional(h: Hashing, a: seq<Fr>, b: seq<Fr>, level: nat, pos: nat)
    requires forall i: nat :: Shr(i, level) == pos ==> h.Subtree(a, 0, i) == h.Subtree(b, 0, i)
    ensures h.Subtree(a, level, pos) == h.Subtree(b, level, pos)
  {
    if level == 0 {
      assert Shr(pos, 0) == pos;
    } else {
      assert forall i: nat :: Shr(i, level - 1) == 2 * pos ==> Shr(i, level) == pos;
      assert forall i: nat :: Shr(i, level - 1) == 2 * pos + 1 ==> Shr(i, level) == pos;
      SubtreeExtensional(h, a, b, level - 1, 2 * pos);
      SubtreeExtensional(h, a, b, level - 1, 2 * pos + 1);
    }
  }

  /** Behind a full left half, the nodes are those of the rest on its own. */
  lemma {:induction false} RightHalf(h: Hashing, a: seq<Fr>, b: seq<Fr>, depth: nat, level: nat, pos: nat)
    requires |a| == Pow2(depth) && level <= depth
    ensures h.Subtree(a + b, level, Pow2(depth - level) + pos) == h.Subtree(b, level, pos)
  {
    if level > 0 {
      assert Pow2(depth - (level - 1)) == 2 * Pow2(depth - level);
      RightHalf(h, a, b, depth, level - 1, 2 * pos);
      RightHalf(h, a, b, depth, level - 1, 2 * pos + 1);
    }
  }

  /**
   The root the other way round, from its halves: the first leaf alone, the first 2^depth leaves on the
   left of the rest, and nothing but zero leaves on the right of fewer.
   */
  lemma RootOfHalves(h: Hashing, a: seq<Fr>, b: seq<Fr>, depth: nat)
    ensures h.Root(a, 0) == if a == [] then h.seed else a[0]
    ensures |a| == Pow2(depth) ==> h.Root(a + b, depth + 1) == h.node(h.Root(a, depth), h.Root(b, depth))
    ensures |a| <= Pow2(depth) ==> h.Root(a, depth + 1) == h.node(h.Root(a, depth), h.Root([], depth))
  {
    if |a| == Pow2(depth) {
      RightHalf(h, a, b, depth, depth, 0);
      OneFull(depth);
      CompleteSubtree(h, a, b, depth, 0);
    }
    if |a| <= Pow2(depth) {
      if a == [] {
        LevelLengthOfNone(depth);
      } else {
        ShrIsZero(|a| - 1, depth);
        LevelLengthSucc(|a| - 1, depth);
      }
      EmptySubtree(h, a, depth, 1);
    }
  }

  lemma {:induction false} OneFull(depth: nat)
    ensures Shr(Pow2(depth), depth) == 1
  {
    if depth > 0 {
      ShrFromBelow(Pow2(depth), depth - 1);
      OneFull(depth - 1);
    }
  }

  // ----- Appending one leaf -----

  /** At a one digit, the stored left sibling and the value so far give the next node of the new path. */
  lemma RightStep(h: Hashing, leaves: seq<Fr>, leaf: Fr, level: nat)
    requires Bit(|leaves|, level) == 1
    ensures var n := |leaves|;
            h.node(h.FrontierAt(leaves, level), h.Subtree(leaves + [leaf], level, Shr(n, level)))
            == h.Subtree(leaves + [leaf], level + 1, Shr(n, level + 1))
  {
    var parent := Shr(|leaves|, level + 1);
    assert Shr(|leaves|, level) == 2 * parent + 1;
    CompleteSubtree(h, leaves, [leaf], level, 2 * parent);
  }

  /** At a zero digit, everything to the right of the new path is still empty. */
  lemma LeftStep(h: Hashing, leaves: seq<Fr>, leaf: Fr, level: nat)
    requires Bit(|leaves|, level) == 0
    ensures var n := |leaves|;
            h.node(h.Subtree(leaves + [leaf], level, Shr(n, level)), h.Zero(level))
            == h.Subtree(leaves + [leaf], level + 1, Shr(n, level + 1))
  {
    var n := |leaves|;
    LevelLengthSucc(n, level);
    EmptySubtree(h, leaves + [leaf], level, Shr(n, level) + 1);
  }

  /** The node of a level above the next leaf to be appended. */
  ghost predicate OnNewPath(h: Hashing, leaves: seq<Fr>, leaf: Fr, level: nat, cur: Fr) {
    cur == h.Subtree(leaves + [leaf], level, Shr(|leaves|, level))
  }

  /** One step up the new path: hash with the empty subtree at a zero digit, with the frontier at a one. */
  lemma UpStep(h: Hashing, leaves: seq<Fr>, leaf: Fr, level: nat, cur: Fr)
    requires OnNewPath(h, leaves, leaf, level, cur)
    ensures Bit(|leaves|, level) == 0 ==> OnNewPath(h, leaves, leaf, level + 1, h.node(cur, h.Zero(level)))
    ensures Bit(|leaves|, level) == 1 ==> OnNewPath(h, leaves, leaf, level + 1, h.node(h.FrontierAt(leaves, level), cur))
  {
    if Bit(|leaves|, level) == 0 {
      LeftStep(h, leaves, leaf, level);
    } else {
      RightStep(h, leaves, leaf, level);
    }
  }

  /** The top of the new path is the new root. */
  lemma TopOfNewPath(h: Hashing, leaves: seq<Fr>, leaf: Fr, depth: nat, cur: Fr)
    requires |leaves| < Pow2(depth)
    requires OnNewPath(h, leaves, leaf, depth, cur)
    ensures cur == h.Root(leaves + [leaf], depth)
  {
    ShrIsZero(|leaves|, depth);
  }

  /** Away from the lowest zero digit of the leaf count, an append leaves a frontier entry as it is. */
  lemma FrontierKept(h: Hashing, leaves: seq<Fr>, leaf: Fr, low: nat, l: nat)
    requires forall i :: 0 <= i < low ==> Bit(|leaves|, i) == 1
    requires Bit(|leaves|, low) == 0
    requires l != low
    ensures h.FrontierAt(leaves + [leaf], l) == h.FrontierAt(leaves, l)
  {
    var complete := Shr(|leaves|, l);
    ShrSucc(|leaves|, low, l);
    if complete > 0 {
      assert l < low ==> Bit(|leaves|, l) == 1;
      CompleteSubtree(h, leaves, [leaf], l, (complete - 1) / 2 * 2);
    }
  }

  /** An append changes one frontier entry, at the lowest zero digit of the leaf count. */
  lemma FrontierStep(h: Hashing, leaves: seq<Fr>, leaf: Fr, depth: nat, low: nat, f: seq<Fr>, cur: Fr)
    requires low < depth
    requires forall i :: 0 <= i < low ==> Bit(|leaves|, i) == 1
    requires Bit(|leaves|, low) == 0
    requires h.IsFrontier(f, leaves, depth)
    requires OnNewPath(h, leaves, leaf, low, cur)
    ensures h.IsFrontier(f[low := cur], leaves + [leaf], depth)
  {
    ShrSucc(|leaves|, low, low);
    forall l | 0 <= l < depth && l != low
      ensures h.FrontierAt(leaves + [leaf], l) == f[l]
    {
      FrontierKept(h, leaves, leaf, low, l);
    }
  }

  /** A leaf count and a frontier that account for the accepted leaves, with room to spare. */
  ghost predicate Tracks(h: Hashing, depth: nat, accepted: seq<Fr>, leafCount: nat, frontier: seq<Fr>) {
    leafCount == |accepted| < Pow2(depth) && h.IsFrontier(frontier, accepted, depth)
  }

  /** The append that stores its node at the lowest zero digit is in step with one more leaf. */
  lemma TracksStep(h: Hashing, depth: nat, before: seq<Fr>, leaf: Fr, low: nat, f: seq<Fr>, cur: Fr)
    requires Tracks(h, depth, before, |before|, f)
    requires low < depth
    requires forall i :: 0 <= i < low ==> Bit(|before|, i) == 1
    requires Bit(|before|, low) == 0
    requires OnNewPath(h, before, leaf, low, cur)
    ensures |before| < Pow2(depth) - 1
    ensures Tracks(h, depth, before + [leaf], |before| + 1, f[low := cur])
  {
    FrontierStep(h, before, leaf, depth, low, f, cur);
    LowestZero(|before|, low, depth);
  }

  /** Before the first append the frontier is all zeros. */
  lemma FrontierOfNone(h: Hashing, f: seq<Fr>)
    requires forall l :: 0 <= l < |f| ==> f[l] == 0
    ensures Tracks(h, |f|, [], 0, f)
  {
    forall l: nat | l < |f|
      ensures Shr(0, l) == 0
    {
      ShrIsZero(0, l);
    }
  }

  /** Equal leaf lists have equal frontiers. */
  lemma FrontierUnique(h: Hashing, leaves: seq<Fr>, depth: nat, f: seq<Fr>, g: seq<Fr>)
    requires h.IsFrontier(f, leaves, depth) && h.IsFrontier(g, leaves, depth)
    ensures f == g
  {
  }

  // ----- Levels -----

  /** The nodes of a level that have a leaf below them. */
  ghost predicate IsLevel(h: Hashing, leaves: seq<Fr>, level: nat, nodes: seq<Fr>) {
    && |nodes| == LevelLength(|leaves|, level)
    && forall i {:trigger nodes[i]} :: 0 <= i < |nodes| ==> nodes[i] == h.Subtree(leaves, level, i)
  }

  /** Node i of a level, when only the nodes with a leaf below them are listed. */
  function NodeAt(nodes: seq<Fr>, i: nat, zero: Fr): Fr {
    if i < |nodes| then nodes[i] else zero
  }

  lemma NodeAtIsSubtree(h: Hashing, leaves: seq<Fr>, level: nat, nodes: seq<Fr>, i: nat)
    requires IsLevel(h, leaves, level, nodes)
    ensures NodeAt(nodes, i, h.Zero(level)) == h.Subtree(leaves, level, i)
  {
    if i >= |nodes| {
      EmptySubtree(h, leaves, level, i);
    }
  }

  /** Hashing a level pairwise, an odd last node against the empty subtree, gives the level above. */
  lemma PairsMakeNextLevel(h: Hashing, leaves: seq<Fr>, level: nat, nodes: seq<Fr>, next: seq<Fr>)
    requires IsLevel(h, leaves, level, nodes)
    requires |next| == (|nodes| + 1) / 2
    requires forall i {:trigger next[i]} :: 0 <= i < |next| ==>
               next[i] == h.node(nodes[2 * i], NodeAt(nodes, 2 * i + 1, h.Zero(level)))
    ensures IsLevel(h, leaves, level + 1, next)
  {
    forall i | 0 <= i < |next|
      ensures next[i] == h.Subtree(leaves, level + 1, i)
    {
      NodeAtIsSubtree(h, leaves, level, nodes, 2 * i + 1);
    }
  }

  lemma {:induction false} LevelLengthPositive(count: nat, level: nat)
    requires count > 0
    ensures LevelLength(count, level) > 0
  {
    if level > 0 {
      LevelLengthPositive(count, level - 1);
    }
  }

  // ----- Paths -----

  /** A node and its sibling make the parent, in the order the index bit says. */
  lemma SiblingsJoin(h: Hashing, leaves: seq<Fr>, level: nat, pos: nat)
    ensures var here, beside := h.Subtree(leaves, level, pos), h.Subtree(leaves, level, Sibling(pos));
            h.Subtree(leaves, level + 1, pos / 2)
            == if pos % 2 == 1 then h.node(beside, here) else h.node(here, beside)
  {
    assert pos == 2 * (pos / 2) + pos % 2;
  }

  /** Completeness: a real path folds to the nodes above its leaf. */
  lemma {:induction false} FoldOfPath(h: Hashing, leaves: seq<Fr>, depth: nat, index: nat, p: MerkleProof, k: nat)
    requires h.IsPathOf(leaves, depth, index, p)
    requires k <= depth
    ensures h.Fold(p, k) == h.Subtree(leaves, k, Shr(index, k))
  {
    if k > 0 {
      FoldOfPath(h, leaves, depth, index, p, k - 1);
      SiblingsJoin(h, leaves, k - 1, Shr(index, k - 1));
    }
  }

  /** Every real path is accepted. */
  lemma PathAccepted(h: Hashing, leaves: seq<Fr>, depth: nat, index: nat, p: MerkleProof)
    requires index < Pow2(depth)
    requires h.IsPathOf(leaves, depth, index, p)
    ensures h.Accepts(p)
  {
    FoldOfPath(h, leaves, depth, index, p, depth);
    ShrIsZero(index, depth);
  }

  /** The real path of a position is unique, up to the index written beside it. */
  lemma PathUnique(h: Hashing, leaves: seq<Fr>, depth: nat, index: nat, p: MerkleProof, q: MerkleProof)
    requires h.IsPathOf(leaves, depth, index, p) && h.IsPathOf(leaves, depth, index, q)
    ensures p.(leafIndex := q.leafIndex) == q
  {
    assert p.siblings == q.siblings;
    assert p.pathBits == q.pathBits;
  }

  /** The real path of a position. */
  function PathOf(h: Hashing, leaves: seq<Fr>, depth: nat, index: nat): (p: MerkleProof)
    ensures h.IsPathOf(leaves, depth, index, p)
  {
    MerkleProof(
      h.Subtree(leaves, 0, index),
      index,
      seq(depth, (l: nat) => h.Subtree(leaves, l, Sibling(Shr(index, l)))),
      seq(depth, (l: nat) => Bit(index, l) == 1),
      h.Root(leaves, depth))
  }

  /** The path bits of an index spell that index. */
  lemma {:induction false} PathBitsSpellIndex(index: nat, pathBits: seq<bool>, k: nat)
    requires forall l {:trigger pathBits[l]} :: 0 <= l < |pathBits| ==> pathBits[l] == (Bit(index, l) == 1)
    requires index < Pow2(|pathBits|) && k <= |pathBits|
    ensures PosFrom(pathBits, k) == Shr(index, k)
    decreases |pathBits| - k
  {
    if k == |pathBits| {
      ShrIsZero(index, k);
    } else {
      PathBitsSpellIndex(index, pathBits, k + 1);
    }
  }

  lemma {:induction false} PosFromBounded(pathBits: seq<bool>, k: nat)
    requires k <= |pathBits|
    ensures PosFrom(pathBits, k) < Pow2(|pathBits| - k)
    decreases |pathBits| - k
  {
    if k < |pathBits| {
      PosFromBounded(pathBits, k + 1);
    }
  }

  /** The nodes spelled by path bits are the ancestors of the leaf they spell. */
  lemma {:induction false} ShrOfPosFrom(pathBits: seq<bool>, k: nat)
    requires k <= |pathBits|
    ensures Shr(PosFrom(pathBits, 0), k) == PosFrom(pathBits, k)
  {
    if k > 0 {
      ShrOfPosFrom(pathBits, k - 1);
    }
  }

  /** Below a node that the path and the tree share, children that differ collide. */
  lemma DifferentChildrenCollide(h: Hashing, leaves: seq<Fr>, p: MerkleProof, k: nat)
    requires k < |p.siblings| == |p.pathBits|
    requires h.Fold(p, k + 1) == h.Subtree(leaves, k + 1, PosFrom(p.pathBits, k + 1))
    ensures h.Differs(leaves, p, k) ==> h.IsCollision(h.ParentAt(leaves, p, k))
  {
  }

  /** Children that do not differ are shared with the tree, one as the value so far, one as sibling. */
  lemma EqualChildrenAreShared(h: Hashing, leaves: seq<Fr>, p: MerkleProof, k: nat)
    requires k < |p.siblings| == |p.pathBits|
    requires !h.Differs(leaves, p, k)
    ensures h.Fold(p, k) == h.Subtree(leaves, k, PosFrom(p.pathBits, k))
    ensures p.siblings[k] == h.Subtree(leaves, k, Sibling(PosFrom(p.pathBits, k)))
  {
    var pos := PosFrom(p.pathBits, k + 1);
    if p.pathBits[k] {
      assert PosFrom(p.pathBits, k) == 2 * pos + 1 && Sibling(2 * pos + 1) == 2 * pos;
    } else {
      assert PosFrom(p.pathBits, k) == 2 * pos && Sibling(2 * pos) == 2 * pos + 1;
    }
  }

  /**
   Binding, with no assumption on the hash: whatever a verifier accepts against the root of a leaf
   list is the real path of the position the bits spell (a zero leaf past the end), or the first
   difference from the real tree is a hash collision.
   */
  lemma AcceptedProofBinds(h: Hashing, leaves: seq<Fr>, depth: nat, p: MerkleProof)
    requires |p.siblings| == |p.pathBits| == depth
    requires p.root == h.Root(leaves, depth) && h.Accepts(p)
    ensures PosFrom(p.pathBits, 0) < Pow2(depth)
    ensures match h.FirstDifference(leaves, p, depth)
            case Some(k) => h.IsCollision(h.ParentAt(leaves, p, k))
            case None => h.IsPathOf(leaves, depth, PosFrom(p.pathBits, 0), p)
  {
    PosFromBounded(p.pathBits, 0);
    match h.FirstDifference(leaves, p, depth)
    case Some(k) =>
      if k + 1 < depth {
        EqualChildrenAreShared(h, leaves, p, k + 1);
      }
      DifferentChildrenCollide(h, leaves, p, k);
    case None =>
      if depth > 0 {
        EqualChildrenAreShared(h, leaves, p, 0);
      }
      forall l | 0 <= l < depth
        ensures p.siblings[l] == h.Subtree(leaves, l, Sibling(PosFrom(p.pathBits, l)))
      {
        EqualChildrenAreShared(h, leaves, p, l);
      }
      SpelledPathIsReal(h, leaves, depth, p);
  }

  /** Siblings read off the tree along the spelled positions make the real path of the spelled leaf. */
  lemma SpelledPathIsReal(h: Hashing, leaves: seq<Fr>, depth: nat, p: MerkleProof)
    requires |p.siblings| == |p.pathBits| == depth
    requires p.root == h.Root(leaves, depth)
    requires p.leaf == h.Subtree(leaves, 0, PosFrom(p.pathBits, 0))
    requires forall l {:trigger p.siblings[l]} :: 0 <= l < depth ==>
               p.siblings[l] == h.Subtree(leaves, l, Sibling(PosFrom(p.pathBits, l)))
    ensures h.IsPathOf(leaves, depth, PosFrom(p.pathBits, 0), p)
  {
    var index := PosFrom(p.pathBits, 0);
    forall l {:trigger p.siblings[l]} | 0 <= l < depth
      ensures p.siblings[l] == SiblingOf(h, leaves, index, l)
    {
      ShrOfPosFrom(p.pathBits, l);
    }
    forall l {:trigger p.pathBits[l]} | 0 <= l < depth
      ensures p.pathBits[l] == (Bit(index, l) == 1)
    {
      BitOfPosFrom(p.pathBits, l);
    }
  }

  lemma BitOfPosFrom(pathBits: seq<bool>, l: nat)
    requires l < |pathBits|
    ensures pathBits[l] == (Bit(PosFrom(pathBits, 0), l) == 1)
  {
    ShrOfPosFrom(pathBits, l);
    LowBit(PosFrom(pathBits, l), if pathBits[l] then 1 else 0, PosFrom(pathBits, l + 1));
  }

  lemma LowBit(n: nat, bit: nat, rest: nat)
    requires n == bit + 2 * rest && bit < 2
    ensures n % 2 == bit
  {
  }

  /** With an injective hash there is no collision to hand over. */
  lemma AcceptedProofIsReal(h: Hashing, leaves: seq<Fr>, depth: nat, p: MerkleProof)
    requires h.Injective()
    requires |p.siblings| == |p.pathBits| == depth
    requires p.root == h.Root(leaves, depth) && h.Accepts(p)
    ensures h.IsPathOf(leaves, depth, PosFrom(p.pathBits, 0), p)
  {
    AcceptedProofBinds(h, leaves, depth, p);
  }

  /** With an injective hash, the root determines every padded leaf below it. */
  lemma RootBindsLeaves(h: Hashing, a: seq<Fr>, b: seq<Fr>, depth: nat, i: nat)
    requires h.Injective()
    requires h.Root(a, depth) == h.Root(b, depth)
    requires i < Pow2(depth)
    ensures h.Subtree(a, 0, i) == h.Subtree(b, 0, i)
  {
    var p := PathOf(h, a, depth, i);
    PathAccepted(h, a, depth, i, p);
    PathBitsSpellIndex(i, p.pathBits, 0);
    AcceptedProofIsReal(h, b, depth, p);
  }

  /** Leaf lists that agree once padded have the same root. */
  lemma SameLeavesSameRoot(h: Hashing, a: seq<Fr>, b: seq<Fr>, depth: nat)
    requires forall i: nat :: i < Pow2(depth) ==> h.Subtree(a, 0, i) == h.Subtree(b, 0, i)
    ensures h.Root(a, depth) == h.Root(b, depth)
  {
    forall i: nat | Shr(i, depth) == 0
      ensures h.Subtree(a, 0, i) == h.Subtree(b, 0, i)
    {
      ShrIsZero(i, depth);
    }
    SubtreeExtensional(h, a, b, depth, 0);
  }

  /** Where the real path of a leaf first departs from another tree; a collision if the roots agree all the same. */
  ghost predicate CollidesAt(h: Hashing, mine: seq<Fr>, other: seq<Fr>, depth: nat, index: nat) {
    var p := PathOf(h, mine, depth, index);
    match h.FirstDifference(other, p, depth)
    case None => false
    case Some(k) => h.IsCollision(h.ParentAt(other, p, k))
  }

  /**
   A client keeps the leaf that an append at capacity refused, and its prover hashes it into the last
   slot. That leaves the root alone if the leaf is the zero leaf; otherwise only if the leaf's path runs
   into a hash collision.
   */
  lemma RootAfterRejection(h: Hashing, accepted: seq<Fr>, pushed: seq<Fr>, depth: nat)
    requires |accepted| == Pow2(depth) - 1 && accepted <= pushed && accepted != pushed
    ensures pushed[|accepted|] == h.seed ==> h.Root(pushed, depth) == h.Root(accepted, depth)
    ensures pushed[|accepted|] != h.seed ==>
              h.Root(pushed, depth) != h.Root(accepted, depth) || CollidesAt(h, pushed, accepted, depth, |accepted|)
    ensures CollidesAt(h, pushed, accepted, depth, |accepted|) ==> !h.Injective()
  {
    var n := |accepted|;
    if pushed[n] == h.seed {
      SameLeavesSameRoot(h, pushed, accepted, depth);
    } else if h.Root(pushed, depth) == h.Root(accepted, depth) {
      var p := PathOf(h, pushed, depth, n);
      PathAccepted(h, pushed, depth, n, p);
      PathBitsSpellIndex(n, p.pathBits, 0);
      AcceptedProofBinds(h, accepted, depth, p);
    }
  }
}
