/** packages/sdk/src/merkle.ts: the incremental tree of the TypeScript client. */
module ClientMerkle {
  import opened Bits
  import opened MerkleSpec
  import opened MerkleWalk
  import opened Wrappers

  datatype TreeError = NotInitialized | CapacityExceeded | IndexOutOfRange

  class ClientMerkleTree {
    const hash: Hashing
    const depth: nat
    var leafCount: nat
    const frontier: array<Fr>
    var zeroCache: seq<Fr>
    var root: Fr
    var leaves: seq<Fr>
    var initialized: bool
    /** The leaves that appends have accepted, in order. */
    ghost var accepted: seq<Fr>

    ghost predicate Valid()
      reads this, frontier
    {
      && depth >= 1
      && frontier.Length == depth
      && Tracks(hash, depth, accepted, leafCount, frontier[..])
      // a rejected append leaves its leaf behind
      && accepted <= leaves
      && (leaves == accepted || leafCount == Pow2(depth) - 1)
      && if initialized then
           IsZeroCache(hash, zeroCache, depth + 1) && root == hash.Root(accepted, depth)
         else
           zeroCache == [] && root == 0 && leaves == []
    }

    constructor (h: Hashing, d: nat)
      requires d >= 1
      ensures Valid() && fresh(frontier)
      ensures hash == h && depth == d && leaves == [] && !initialized
    {
      hash, depth, leafCount, zeroCache, root, leaves := h, d, 0, [], 0, [];
      frontier := new Fr[d](_ => 0);
      initialized, accepted := false, [];
      new;
      FrontierOfNone(h, frontier[..]);
    }

    /** Fills the zero cache once; a second call changes nothing. */
    method Init()
      requires Valid()
      modifies this
      ensures Valid() && initialized
      ensures accepted == old(accepted) && leaves == old(leaves)
      ensures old(initialized) ==> root == old(root) && zeroCache == old(zeroCache)
    {
      if initialized {
        return;
      }
      zeroCache := zeroCache + [hash.seed];
      for i := 0 to depth
        invariant leafCount == |accepted| && accepted == old(accepted) && leaves == old(leaves) && !initialized
        invariant IsZeroCache(hash, zeroCache, i + 1)
      {
        ZeroStep(hash, i);
        zeroCache := zeroCache + [hash.node(zeroCache[i], zeroCache[i])];
      }
      root := zeroCache[depth];
      initialized := true;
    }

    /**
     Climbs over the trailing ones of the index first and walks to the root second. At capacity it
     throws after the leaf was pushed.
     */
    method Append(leaf: Fr) returns (r: Result<(nat, Fr), TreeError>)
      requires Valid()
      modifies this, frontier
      ensures Valid() && initialized == old(initialized)
      ensures !old(initialized) ==> r == Failure(NotInitialized) && unchanged(this) && unchanged(frontier)
      ensures old(initialized) ==>
                && leaves == old(leaves) + [leaf]
                && if old(leafCount) == Pow2(depth) - 1 then
                     r == Failure(CapacityExceeded) && accepted == old(accepted)
                   else
                     r == Success((old(leafCount), root)) && accepted == old(accepted) + [leaf]
    {
      if !initialized {
        return Failure(NotInitialized);
      }
      var index := leafCount;
      leaves := leaves + [leaf];
      var full, level, cur := ClimbOnes(index, leaf);
      if full {
        return Failure(CapacityExceeded);
      }
      root := StoreAndWalk(hash, frontier, zeroCache, index, level, cur, accepted, leaf);
      leafCount := leafCount + 1;
      accepted := accepted + [leaf];
      return Success((index, root));
    }

    /** The climb over the trailing ones of the index, which leaves the tree only at capacity. */
    method ClimbOnes(index: nat, leaf: Fr) returns (full: bool, level: nat, cur: Fr)
      requires depth >= 1 && Tracks(hash, depth, accepted, index, frontier[..])
      ensures full ==> index == Pow2(depth) - 1
      ensures !full ==>
                && level < depth && Bit(index, level) == 0 && (forall i :: 0 <= i < level ==> Bit(index, i) == 1)
                && OnNewPath(hash, accepted, leaf, level, cur)
    {
      full, level, cur := false, 0, leaf;
      while Bit(index, level) == 1
        invariant level < depth
        invariant forall i :: 0 <= i < level ==> Bit(index, i) == 1
        invariant OnNewPath(hash, accepted, leaf, level, cur)
        decreases depth - level
      {
        UpStep(hash, accepted, leaf, level, cur);
        assert frontier[level] == frontier[..][level];
        cur := hash.node(frontier[level], cur);
        level := level + 1;
        if level >= depth {
          AllOnes(index, depth);
          full := true;
          return;
        }
      }
    }

    /** Rebuilds the tree level by level over every leaf ever pushed. */
    method Prove(index: nat) returns (r: Result<MerkleProof, TreeError>)
      requires Valid()
      ensures !initialized ==> r == Failure(NotInitialized)
      ensures initialized && index >= leafCount ==> r == Failure(IndexOutOfRange)
      ensures initialized && index < leafCount ==>
                && r.Success?
                && r.value.leafIndex == index
                && hash.IsPathOf(leaves, depth, index, r.value)
    {
      if !initialized {
        return Failure(NotInitialized);
      }
      if index >= leafCount {
        return Failure(IndexOutOfRange);
      }
      var levelNodes := leaves;
      var siblings, pathBits := [], [];
      var idx := index;
      for level := 0 to depth
        invariant idx == Shr(index, level)
        invariant IsLevel(hash, leaves, level, levelNodes)
        invariant |siblings| == |pathBits| == level
        invariant forall l {:trigger siblings[l]} :: 0 <= l < level ==>
                    siblings[l] == SiblingOf(hash, leaves, index, l)
        invariant forall l {:trigger pathBits[l]} :: 0 <= l < level ==> pathBits[l] == (Bit(index, l) == 1)
      {
        var isRight := idx % 2 == 1;
        pathBits := pathBits + [isRight];
        var sibIdx := if isRight then idx - 1 else idx + 1;
        NodeAtIsSubtree(hash, leaves, level, levelNodes, sibIdx);
        assert sibIdx == Sibling(Shr(index, level));
        var sib := if sibIdx < |levelNodes| then levelNodes[sibIdx] else zeroCache[level];
        assert sib == SiblingOf(hash, leaves, index, level);
        siblings := siblings + [sib];
        var next := NextLevel(hash, levelNodes, zeroCache[level]);
        PairsMakeNextLevel(hash, leaves, level, levelNodes, next);
        levelNodes := next;
        idx := idx / 2;
      }
      LevelLengthPositive(|leaves|, depth);
      r := Success(MerkleProof(leaves[index], index, siblings, pathBits, NodeAt(levelNodes, 0, zeroCache[depth])));
    }
  }
}
