/** packages/crypto/src/merkle.rs: the incremental tree of the Rust client, and its proofs. */
module RustMerkle {
  import opened Bits
  import opened MerkleSpec
  import opened MerkleWalk
  import opened Wrappers

  datatype TreeError = CapacityExceeded

  class MerkleTree {
    const hash: Hashing
    const depth: nat
    var leafCount: nat
    const frontier: array<Fr>
    const zeroCache: seq<Fr>
    var root: Fr
    /** The full leaf list in client mode, None in on-chain mode. */
    var leaves: Option<seq<Fr>>
    /** The leaves that appends have accepted, in order. */
    ghost var accepted: seq<Fr>

    ghost predicate Valid()
      reads this, frontier
    {
      && depth >= 1
      && IsZeroCache(hash, zeroCache, depth + 1)
      && frontier.Length == depth
      && Tracks(hash, depth, accepted, leafCount, frontier[..])
      && root == hash.Root(accepted, depth)
      // a rejected append leaves its leaf behind
      && (leaves.Some? ==>
            && accepted <= leaves.value
            && (leaves.value == accepted || leafCount == Pow2(depth) - 1))
    }

    constructor NewClient(h: Hashing, d: nat)
      requires d >= 1
      ensures Valid() && fresh(frontier)
      ensures hash == h && depth == d && accepted == [] && leaves == Some([])
    {
      var zc := ComputeZeroCache(h, d);
      hash, depth, leafCount, accepted := h, d, 0, [];
      frontier := new Fr[d](_ => 0);
      zeroCache := zc;
      root := zc[d];
      leaves := Some([]);
      new;
      FrontierOfNone(h, frontier[..]);
    }

    constructor NewOnChain(h: Hashing, d: nat)
      requires d >= 1
      ensures Valid() && fresh(frontier)
      ensures hash == h && depth == d && accepted == [] && leaves == None
    {
      var zc := ComputeZeroCache(h, d);
      hash, depth, leafCount, accepted := h, d, 0, [];
      frontier := new Fr[d](_ => 0);
      zeroCache := zc;
      root := zc[d];
      leaves := None;
      new;
      FrontierOfNone(h, frontier[..]);
    }

    /**
     Appends a leaf in O(depth) from the frontier alone. Valid() in the new state says that the root
     is the one of the full tree and that every frontier entry, stale ones included, is in place. The
     last of the 2^depth slots is never filled: the append that would fill it panics.
     */
    method Append(leaf: Fr) returns (r: Result<(nat, Fr), TreeError>)
      requires Valid()
      modifies this, frontier
      ensures Valid()
      ensures r.Failure? <==> old(leafCount) == Pow2(depth) - 1
      ensures r.Success? ==> r.value == (old(leafCount), root) && accepted == old(accepted) + [leaf]
      ensures r.Failure? ==> accepted == old(accepted)
      ensures leaves == if old(leaves).Some? then Some(old(leaves).value + [leaf]) else None
    {
      var idx := leafCount;
      if leaves.Some? {
        leaves := Some(leaves.value + [leaf]);
      }
      ghost var before, f := accepted, frontier[..];
      var cur := leaf;
      for level := 0 to depth
        invariant unchanged(`leafCount, `root, `accepted)
        invariant leaves == if old(leaves).Some? then Some(old(leaves).value + [leaf]) else None
        invariant frontier[..] == f
        invariant forall i :: 0 <= i < level ==> Bit(idx, i) == 1
        invariant OnNewPath(hash, before, leaf, level, cur)
      {
        if Bit(idx, level) == 0 {
          root := StoreAndWalk(hash, frontier, zeroCache, idx, level, cur, before, leaf);
          leafCount := leafCount + 1;
          accepted := before + [leaf];
          return Success((idx, root));
        } else {
          UpStep(hash, before, leaf, level, cur);
          assert frontier[level] == f[level];
          cur := hash.node(frontier[level], cur);
        }
      }
      AllOnes(idx, depth);
      return Failure(CapacityExceeded);
    }

    /** Rebuilds the tree level by level; the path is exactly the real one. */
    method Prove(index: nat) returns (r: Option<MerkleProof>)
      requires Valid()
      ensures r.Some? <==> leaves.Some? && index < leafCount
      ensures r.Some? ==> r.value.leafIndex == index && hash.IsPathOf(leaves.value, depth, index, r.value)
    {
      if leaves.None? || index >= leafCount {
        return None;
      }
      ghost var all := leaves.value;
      var levelNodes := leaves.value;
      var siblings := new Fr[depth];
      var pathBits := new bool[depth];
      var idx := index;
      for level := 0 to depth
        invariant idx == Shr(index, level)
        invariant IsLevel(hash, all, level, levelNodes)
        invariant forall l {:trigger siblings[l]} :: 0 <= l < level ==>
                    siblings[l] == SiblingOf(hash, all, index, l)
        invariant forall l {:trigger pathBits[l]} :: 0 <= l < level ==> pathBits[l] == (Bit(index, l) == 1)
      {
        var isRight := idx % 2 == 1;
        pathBits[level] := isRight;
        var siblingIdx := if isRight then idx - 1 else idx + 1;
        NodeAtIsSubtree(hash, all, level, levelNodes, siblingIdx);
        assert siblingIdx == Sibling(Shr(index, level));
        var sibling := if siblingIdx < |levelNodes| then levelNodes[siblingIdx] else zeroCache[level];
        assert sibling == SiblingOf(hash, all, index, level);
        siblings[level] := sibling;
        var next := NextLevel(hash, levelNodes, zeroCache[level]);
        PairsMakeNextLevel(hash, all, level, levelNodes, next);
        levelNodes := next;
        idx := idx / 2;
      }
      LevelLengthPositive(|all|, depth);
      r := Some(MerkleProof(leaves.value[index], index, siblings[..], pathBits[..],
                            NodeAt(levelNodes, 0, zeroCache[depth])));
    }
  }
}
