/** The two loops that every copy of the tree shares: the zero cache, and the walk up to the root. */
module MerkleWalk {
  import opened Bits
  import opened MerkleSpec

  ghost predicate IsZeroCache(h: Hashing, cache: seq<Fr>, length: nat) {
    && |cache| == length
    && forall d {:trigger cache[d]} :: 0 <= d < length ==> cache[d] == h.Zero(d)
  }

  /** Entry d is the root of an empty subtree of height d. */
  method ComputeZeroCache(h: Hashing, depth: nat) returns (cache: seq<Fr>)
    ensures IsZeroCache(h, cache, depth + 1)
  {
    var a := new Fr[depth + 1];
    a[0] := h.seed;
    for d := 0 to depth
      invariant forall e {:trigger a[e]} :: 0 <= e <= d ==> a[e] == h.Zero(e)
    {
      ZeroStep(h, d);
      a[d + 1] := h.node(a[d], a[d]);
    }
    cache := a[..];
  }

  /** From the node above the new leaf on one level to the new root. */
  method WalkToRoot(h: Hashing, frontier: array<Fr>, zeroCache: seq<Fr>, idx: nat, from: nat, cur: Fr,
                    ghost before: seq<Fr>, ghost leaf: Fr) returns (walking: Fr)
    requires from <= frontier.Length <= |zeroCache|
    requires IsZeroCache(h, zeroCache, |zeroCache|)
    requires |before| == idx < Pow2(frontier.Length)
    requires forall l {:trigger frontier[l]} :: from <= l < frontier.Length ==> frontier[l] == h.FrontierAt(before, l)
    requires OnNewPath(h, before, leaf, from, cur)
    ensures walking == h.Root(before + [leaf], frontier.Length)
  {
    walking := cur;
    for upper := from to frontier.Length
      invariant OnNewPath(h, before, leaf, upper, walking)
    {
      UpStep(h, before, leaf, upper, walking);
      if Bit(idx, upper) == 0 {
        walking := h.node(walking, zeroCache[upper]);
      } else {
        walking := h.node(frontier[upper], walking);
      }
    }
    TopOfNewPath(h, before, leaf, frontier.Length, walking);
  }

  /** Stores the node of a left child, then walks to the root. */
  method StoreAndWalk(h: Hashing, frontier: array<Fr>, zeroCache: seq<Fr>, idx: nat, level: nat, node: Fr,
                      ghost before: seq<Fr>, ghost leaf: Fr) returns (root: Fr)
    requires level < frontier.Length <= |zeroCache|
    requires IsZeroCache(h, zeroCache, |zeroCache|)
    requires Tracks(h, frontier.Length, before, idx, frontier[..])
    requires forall i :: 0 <= i < level ==> Bit(idx, i) == 1
    requires Bit(idx, level) == 0
    requires OnNewPath(h, before, leaf, level, node)
    modifies frontier
    ensures idx < Pow2(frontier.Length) - 1
    ensures Tracks(h, frontier.Length, before + [leaf], idx + 1, frontier[..])
    ensures root == h.Root(before + [leaf], frontier.Length)
  {
    ghost var f := frontier[..];
    UpStep(h, before, leaf, level, node);
    TracksStep(h, frontier.Length, before, leaf, level, f, node);
    frontier[level] := node;
    assert frontier[..] == f[level := node];
    root := WalkToRoot(h, frontier, zeroCache, idx, level + 1, h.node(node, zeroCache[level]), before, leaf);
  }

  /** One round of the level-by-level prover. */
  method NextLevel(h: Hashing, nodes: seq<Fr>, zero: Fr) returns (next: seq<Fr>)
    ensures |next| == (|nodes| + 1) / 2
    ensures forall i {:trigger next[i]} :: 0 <= i < |next| ==>
              next[i] == h.node(nodes[2 * i], NodeAt(nodes, 2 * i + 1, zero))
  {
    next := [];
    var i := 0;
    while i < |nodes|
      invariant i == 2 * |next| <= |nodes| + 1
      invariant forall j {:trigger next[j]} :: 0 <= j < |next| ==>
                  next[j] == h.node(nodes[2 * j], NodeAt(nodes, 2 * j + 1, zero))
    {
      var l := nodes[i];
      var r := if i + 1 < |nodes| then nodes[i + 1] else zero;
      next := next + [h.node(l, r)];
      i := i + 2;
    }
  }

  /** Folds a path from the leaf upwards and compares with its root. */
  method Verify(h: Hashing, p: MerkleProof) returns (ok: bool)
    requires |p.siblings| == |p.pathBits|
    ensures ok <==> h.Accepts(p)
  {
    var cur := p.leaf;
    for level := 0 to |p.siblings|
      invariant cur == h.Fold(p, level)
    {
      cur := if p.pathBits[level] then h.node(p.siblings[level], cur) else h.node(cur, p.siblings[level]);
    }
    ok := cur == p.root;
  }
}
