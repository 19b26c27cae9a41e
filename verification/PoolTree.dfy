/**
 programs/b402-pool/src/util.rs and instructions/init_pool.rs: the tree the pool program keeps on
 chain, without leaves but with a ring of its recent roots.
 */
module PoolTree {
  import opened Bits
  import opened MerkleSpec
  import opened MerkleWalk
  import opened Wrappers

  const ROOT_HISTORY_SIZE: nat := 128

  datatype PoolError = TreeCapacityExceeded

  class TreeState {
    const hash: Hashing
    const depth: nat
    var leafCount: nat
    var ringHead: nat
    const rootRing: array<Fr>
    const frontier: array<Fr>
    const zeroCache: seq<Fr>
    /** The leaves that appends have accepted, in order. */
    ghost var accepted: seq<Fr>

    ghost predicate Valid()
      reads this, frontier, rootRing
    {
      && depth >= 1
      && frontier != rootRing
      && frontier.Length == depth
      && rootRing.Length == ROOT_HISTORY_SIZE
      && IsZeroCache(hash, zeroCache, depth)
      && Tracks(hash, depth, accepted, leafCount, frontier[..])
      && ringHead == leafCount % ROOT_HISTORY_SIZE
      && IsRootRing(hash, accepted, depth, rootRing[..])
    }

    constructor (h: Hashing, d: nat)
      requires d >= 1
      ensures Valid() && fresh(frontier) && fresh(rootRing)
      ensures hash == h && depth == d && accepted == []
    {
      hash, depth, leafCount, ringHead, accepted := h, d, 0, 0, [];
      var cache := new Fr[d];
      cache[0] := h.seed;
      for i := 1 to d
        invariant forall e {:trigger cache[e]} :: 0 <= e < i ==> cache[e] == h.Zero(e)
      {
        ZeroStep(h, i - 1);
        cache[i] := h.node(cache[i - 1], cache[i - 1]);
      }
      zeroCache := cache[..];
      frontier := new Fr[d](_ => 0);
      var ring := new Fr[ROOT_HISTORY_SIZE](_ => 0);
      ZeroStep(h, d - 1);
      ring[0] := h.node(cache[d - 1], cache[d - 1]);
      rootRing := ring;
      new;
      FrontierOfNone(h, frontier[..]);
    }

    /** tree_append: refuses instead of panicking, and records the new root in the next ring slot. */
    method Append(leaf: Fr) returns (r: Result<Fr, PoolError>)
      requires Valid()
      modifies this, frontier, rootRing
      ensures Valid()
      ensures if old(leafCount) == Pow2(depth) - 1 then
                r == Failure(TreeCapacityExceeded) && unchanged(this) && unchanged(frontier) && unchanged(rootRing)
              else
                r == Success(hash.Root(accepted, depth)) && accepted == old(accepted) + [leaf]
    {
      var idx := leafCount;
      if idx >= Pow2(depth) {
        return Failure(TreeCapacityExceeded);
      }
      ghost var before, f := accepted, frontier[..];
      var cur := leaf;
      var level := 0;
      while true
        invariant level < depth
        invariant forall i :: 0 <= i < level ==> Bit(idx, i) == 1
        invariant OnNewPath(hash, before, leaf, level, cur)
        decreases depth - level
        modifies {}
      {
        UpStep(hash, before, leaf, level, cur);
        assert frontier[level] == f[level];
        if Bit(idx, level) == 0 {
          break;
        } else {
          cur := hash.node(frontier[level], cur);
        }
        level := level + 1;
        if level >= depth {
          AllOnes(idx, depth);
          return Failure(TreeCapacityExceeded);
        }
      }
      var walking := StoreAndWalk(hash, frontier, zeroCache, idx, level, cur, before, leaf);
      leafCount := leafCount + 1;
      RecordRoot(walking, leaf);
      return Success(walking);
    }

    /** The tail of tree_append: advances the ring head and writes the root there. */
    method RecordRoot(walking: Fr, ghost leaf: Fr)
      requires rootRing.Length == ROOT_HISTORY_SIZE && rootRing != frontier
      requires leafCount == |accepted| + 1
      requires ringHead == |accepted| % ROOT_HISTORY_SIZE
      requires IsRootRing(hash, accepted, depth, rootRing[..])
      requires walking == hash.Root(accepted + [leaf], depth)
      modifies this`ringHead, this`accepted, rootRing
      ensures accepted == old(accepted) + [leaf]
      ensures ringHead == leafCount % ROOT_HISTORY_SIZE
      ensures IsRootRing(hash, accepted, depth, rootRing[..])
    {
      RingStep(hash, accepted, leaf, depth, rootRing[..]);
      ghost var ring := rootRing[..];
      ringHead := (ringHead + 1) % ROOT_HISTORY_SIZE;
      rootRing[ringHead] := walking;
      assert rootRing[..] == ring[ringHead := walking];
      accepted := accepted + [leaf];
    }

    /** tree_has_recent_root */
    method HasRecentRoot(root: Fr) returns (recent: bool)
      requires Valid()
      ensures recent <==> IsRecentRoot(hash, accepted, depth, root)
    {
      recent := false;
      for i := 0 to ROOT_HISTORY_SIZE
        invariant recent <==> exists j :: 0 <= j < i && rootRing[j] == root
      {
        if rootRing[i] == root {
          recent := true;
        }
      }
      RingHoldsRecentRoots(hash, accepted, depth, rootRing[..], root);
    }
  }

  /** The roots still in the ring are those of the last 128 states, the current one included. */
  ghost predicate InWindow(count: nat, k: nat) {
    k <= count < k + ROOT_HISTORY_SIZE
  }

  ghost predicate IsRootRing(h: Hashing, accepted: seq<Fr>, depth: nat, ring: seq<Fr>) {
    && |ring| == ROOT_HISTORY_SIZE
    && (forall k: nat {:trigger accepted[..k]} :: InWindow(|accepted|, k) ==>
          ring[k % ROOT_HISTORY_SIZE] == h.Root(accepted[..k], depth))
    && (forall j {:trigger ring[j]} :: |accepted| < j < ROOT_HISTORY_SIZE ==> ring[j] == 0)
  }

  /** What the ring answers for: the root of a recent state, or 0 while a slot was never written. */
  ghost predicate IsRecentRoot(h: Hashing, accepted: seq<Fr>, depth: nat, root: Fr) {
    || (exists k: nat {:trigger accepted[..k]} :: InWindow(|accepted|, k) && root == h.Root(accepted[..k], depth))
    || (|accepted| + 1 < ROOT_HISTORY_SIZE && root == 0)
  }

  lemma RingStep(h: Hashing, before: seq<Fr>, leaf: Fr, depth: nat, ring: seq<Fr>)
    requires IsRootRing(h, before, depth, ring)
    ensures var after := before + [leaf];
            IsRootRing(h, after, depth, ring[|after| % ROOT_HISTORY_SIZE := h.Root(after, depth)])
  {
    var after := before + [leaf];
    var slot := |after| % ROOT_HISTORY_SIZE;
    forall k: nat | InWindow(|after|, k)
      ensures ring[slot := h.Root(after, depth)][k % ROOT_HISTORY_SIZE] == h.Root(after[..k], depth)
    {
      if k == |after| {
        assert after[..k] == after;
      } else {
        assert after[..k] == before[..k];
      }
    }
  }

  lemma RingHoldsRecentRoots(h: Hashing, accepted: seq<Fr>, depth: nat, ring: seq<Fr>, root: Fr)
    requires IsRootRing(h, accepted, depth, ring)
    ensures (exists j :: 0 <= j < ROOT_HISTORY_SIZE && ring[j] == root) <==> IsRecentRoot(h, accepted, depth, root)
  {
    var n := |accepted|;
    if j :| 0 <= j < ROOT_HISTORY_SIZE && ring[j] == root {
      if j <= n {
        // the last state that was written to slot j
        var k := n - (n - j) % ROOT_HISTORY_SIZE;
        assert InWindow(n, k) && k % ROOT_HISTORY_SIZE == j;
        assert root == h.Root(accepted[..k], depth);
      }
    }
    if k: nat :| InWindow(n, k) && root == h.Root(accepted[..k], depth) {
      assert ring[k % ROOT_HISTORY_SIZE] == root;
    }
    if n + 1 < ROOT_HISTORY_SIZE && root == 0 {
      assert ring[n + 1] == root;
    }
  }

  /**
   With an injective hash and no zero leaf among the accepted ones, the root of state k stays
   recognised for exactly 127 further appends.
   */
  lemma RootExpiresExactly(h: Hashing, accepted: seq<Fr>, depth: nat, k: nat)
    requires h.Injective()
    requires forall i :: 0 <= i < |accepted| ==> accepted[i] != h.seed
    requires k <= |accepted| < Pow2(depth)
    ensures IsRecentRoot(h, accepted, depth, h.Root(accepted[..k], depth)) <==> |accepted| <= k + 127
  {
    var n := |accepted|;
    var root := h.Root(accepted[..k], depth);
    forall m: nat | InWindow(n, m) && m > k
      ensures root != h.Root(accepted[..m], depth)
    {
      if root == h.Root(accepted[..m], depth) {
        RootBindsLeaves(h, accepted[..k], accepted[..m], depth, k);
      }
      assert accepted[..m][k] == accepted[k];
    }
    assert InWindow(n, k) ==> root == h.Root(accepted[..k], depth);
  }

  /** Whatever the tree, the root 0 is recognised until 127 leaves have been appended. */
  lemma ZeroRecognised(h: Hashing, accepted: seq<Fr>, depth: nat)
    ensures |accepted| < 127 ==> IsRecentRoot(h, accepted, depth, 0)
    ensures |accepted| >= 127 && IsRecentRoot(h, accepted, depth, 0) ==>
              exists k: nat {:trigger accepted[..k]} :: k <= |accepted| <= k + 127 && h.Root(accepted[..k], depth) == 0
  {
  }
}
