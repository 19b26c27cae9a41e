/**
 The trees side by side: the Rust client, the TypeScript client and the pool program, and the prover
 of packages/sdk/src/merkle.ts that needs the pool's frontier only.
 */
module MerkleParity {
  import opened Bits
  import opened FieldCodec
  import opened MerkleSpec
  import opened MerkleWalk
  import opened Wrappers
  import RustMerkle
  import ClientMerkle
  import PoolTree

  datatype ShortcutError = NegativeIndex | FrontierLength | ZeroCacheTooShort

  /** proveMostRecentLeaf: left siblings from the frontier, right siblings from the zero cache. */
  method ProveMostRecentLeaf(leaf: Fr, leafIndex: int, root: Fr, frontierLe: seq<Bytes>, zeroCacheLe: seq<Bytes>,
                             depth: nat) returns (r: Result<MerkleProof, ShortcutError>)
    ensures r.Success? <==> leafIndex >= 0 && |frontierLe| == depth <= |zeroCacheLe|
    ensures r.Failure? ==> r.error == if leafIndex < 0 then NegativeIndex
                                      else if |frontierLe| != depth then FrontierLength else ZeroCacheTooShort
    ensures r.Success? ==> IsShortcut(r.value, leaf, leafIndex, root, frontierLe, zeroCacheLe, depth)
  {
    if leafIndex < 0 {
      return Failure(NegativeIndex);
    }
    if |frontierLe| != depth {
      return Failure(FrontierLength);
    }
    if |zeroCacheLe| < depth {
      return Failure(ZeroCacheTooShort);
    }
    var index: nat := leafIndex;
    var siblings, pathBits := [], [];
    for lvl := 0 to depth
      invariant |siblings| == |pathBits| == lvl
      invariant forall l {:trigger siblings[l]} :: 0 <= l < lvl ==>
                  siblings[l] == LeValue(if Bit(index, l) == 1 then frontierLe[l] else zeroCacheLe[l])
      invariant forall l {:trigger pathBits[l]} :: 0 <= l < lvl ==> pathBits[l] == (Bit(index, l) == 1)
    {
      var bit := Bit(index, lvl);
      pathBits := pathBits + [bit == 1];
      var sibling := LeToBig(if bit == 1 then frontierLe[lvl] else zeroCacheLe[lvl]);
      siblings := siblings + [sibling];
    }
    return Success(MerkleProof(leaf, index, siblings, pathBits, root));
  }

  ghost predicate IsShortcut(p: MerkleProof, leaf: Fr, index: nat, root: Fr, frontierLe: seq<Bytes>,
                             zeroCacheLe: seq<Bytes>, depth: nat)
    requires |frontierLe| == depth <= |zeroCacheLe|
  {
    && p.leaf == leaf && p.leafIndex == index && p.root == root
    && |p.siblings| == |p.pathBits| == depth
    && (forall l {:trigger p.siblings[l]} :: 0 <= l < depth ==>
          p.siblings[l] == LeValue(if Bit(index, l) == 1 then frontierLe[l] else zeroCacheLe[l]))
    && (forall l {:trigger p.pathBits[l]} :: 0 <= l < depth ==> p.pathBits[l] == (Bit(index, l) == 1))
  }

  /** Bytes of field elements, element by element. */
  ghost predicate EncodesAll(bytes: seq<Bytes>, values: seq<Fr>) {
    && |bytes| == |values|
    && forall l {:trigger bytes[l]} :: 0 <= l < |bytes| ==> LeValue(bytes[l]) == values[l]
  }

  lemma {:induction false} ShrOfSucc(n: nat, k: nat)
    ensures Shr(n, k) <= Shr(n + 1, k) <= Shr(n, k) + 1
  {
    if k > 0 {
      ShrOfSucc(n, k - 1);
    }
  }

  /** After an append, frontier and zero cache hold every sibling of the newest leaf. */
  lemma NewestSibling(h: Hashing, leaves: seq<Fr>, newest: nat, level: nat)
    requires |leaves| == newest + 1
    ensures SiblingOf(h, leaves, newest, level)
            == if Bit(newest, level) == 1 then h.FrontierAt(leaves, level) else h.Zero(level)
  {
    var pos := Shr(newest, level);
    if pos % 2 == 1 {
      ShrOfSucc(newest, level);
      assert (Shr(newest + 1, level) - 1) / 2 * 2 == pos - 1;
    } else {
      LevelLengthSucc(newest, level);
      EmptySubtree(h, leaves, level, pos + 1);
    }
  }

  /** The shortcut path of the newest leaf is its real path in the full tree. */
  lemma ShortcutIsPath(h: Hashing, leaves: seq<Fr>, depth: nat, frontier: seq<Fr>, zeroCache: seq<Fr>,
                       frontierLe: seq<Bytes>, zeroCacheLe: seq<Bytes>, p: MerkleProof)
    requires leaves != []
    requires h.IsFrontier(frontier, leaves, depth) && EncodesAll(frontierLe, frontier)
    requires IsZeroCache(h, zeroCache, |zeroCache|) && EncodesAll(zeroCacheLe, zeroCache)
    requires depth <= |zeroCache|
    requires IsShortcut(p, leaves[|leaves| - 1], |leaves| - 1, h.Root(leaves, depth), frontierLe, zeroCacheLe, depth)
    ensures h.IsPathOf(leaves, depth, |leaves| - 1, p)
  {
    var newest := |leaves| - 1;
    forall l | 0 <= l < depth
      ensures p.siblings[l] == SiblingOf(h, leaves, newest, l)
    {
      NewestSibling(h, leaves, newest, l);
      assert LeValue(frontierLe[l]) == frontier[l] == h.FrontierAt(leaves, l);
      assert LeValue(zeroCacheLe[l]) == zeroCache[l] == h.Zero(l);
    }
  }

  /**
   Taken from the pool's state after an append, the shortcut proof is the proof the full prover builds
   from every leaf, and a verifier accepts it.
   */
  lemma ShortcutEqualsFullProof(pool: PoolTree.TreeState, leaves: seq<Fr>,
                                frontierLe: seq<Bytes>, zeroCacheLe: seq<Bytes>, p: MerkleProof, full: MerkleProof)
    requires pool.Valid() && pool.accepted == leaves != []
    requires EncodesAll(frontierLe, pool.frontier[..]) && EncodesAll(zeroCacheLe, pool.zeroCache)
    requires IsShortcut(p, leaves[|leaves| - 1], |leaves| - 1, pool.hash.Root(leaves, pool.depth),
                        frontierLe, zeroCacheLe, pool.depth)
    requires full.leafIndex == |leaves| - 1 && pool.hash.IsPathOf(leaves, pool.depth, |leaves| - 1, full)
    ensures p == full && pool.hash.Accepts(p)
  {
    var h := pool.hash;
    ShortcutIsPath(h, leaves, pool.depth, pool.frontier[..], pool.zeroCache, frontierLe, zeroCacheLe, p);
    PathUnique(h, leaves, pool.depth, |leaves| - 1, p, full);
    PathAccepted(h, leaves, pool.depth, |leaves| - 1, p);
  }

  /** Trees that accepted the same leaves are in the same state, stale frontier entries included. */
  lemma SameLeavesSameState(rust: RustMerkle.MerkleTree, client: ClientMerkle.ClientMerkleTree, pool: PoolTree.TreeState)
    requires rust.Valid() && client.Valid() && client.initialized && pool.Valid()
    requires rust.hash == client.hash == pool.hash && rust.depth == client.depth == pool.depth
    requires rust.accepted == client.accepted == pool.accepted
    ensures rust.leafCount == client.leafCount == pool.leafCount
    ensures rust.root == client.root == pool.rootRing[pool.ringHead]
    ensures rust.frontier[..] == client.frontier[..] == pool.frontier[..]
  {
    var h, leaves, depth := rust.hash, rust.accepted, rust.depth;
    FrontierUnique(h, leaves, depth, rust.frontier[..], client.frontier[..]);
    FrontierUnique(h, leaves, depth, rust.frontier[..], pool.frontier[..]);
    assert PoolTree.InWindow(|leaves|, |leaves|) && leaves[..|leaves|] == leaves;
    assert pool.rootRing[..][|leaves| % PoolTree.ROOT_HISTORY_SIZE] == h.Root(leaves, depth);
  }

  /**
   What the full prover returns is accepted. It is a proof against the root that the appends kept,
   unless a leaf was refused at capacity: the refused leaf stays in the prover's list, and then the two
   roots agree if it is the zero leaf, and otherwise only by a hash collision on its path.
   */
  lemma FullProofAgainstKeptRoot(client: ClientMerkle.ClientMerkleTree, index: nat, p: MerkleProof)
    requires client.Valid() && client.initialized && index < client.leafCount
    requires client.hash.IsPathOf(client.leaves, client.depth, index, p)
    ensures client.hash.Accepts(p)
    ensures |client.leaves| == client.leafCount ==> p.root == client.root
    ensures |client.leaves| != client.leafCount ==>
              if client.leaves[client.leafCount] == client.hash.seed then p.root == client.root
              else p.root != client.root || CollidesAt(client.hash, client.leaves, client.accepted, client.depth, client.leafCount)
  {
    PathAccepted(client.hash, client.leaves, client.depth, index, p);
    if |client.leaves| != client.leafCount {
      RootAfterRejection(client.hash, client.accepted, client.leaves, client.depth);
    }
  }

  /** The same for the Rust client. */
  lemma RustProofAgainstKeptRoot(rust: RustMerkle.MerkleTree, index: nat, p: MerkleProof)
    requires rust.Valid() && rust.leaves.Some? && index < rust.leafCount
    requires rust.hash.IsPathOf(rust.leaves.value, rust.depth, index, p)
    ensures rust.hash.Accepts(p)
    ensures |rust.leaves.value| == rust.leafCount ==> p.root == rust.root
    ensures |rust.leaves.value| != rust.leafCount ==>
              if rust.leaves.value[rust.leafCount] == rust.hash.seed then p.root == rust.root
              else p.root != rust.root || CollidesAt(rust.hash, rust.leaves.value, rust.accepted, rust.depth, rust.leafCount)
  {
    PathAccepted(rust.hash, rust.leaves.value, rust.depth, index, p);
    if |rust.leaves.value| != rust.leafCount {
      RootAfterRejection(rust.hash, rust.accepted, rust.leaves.value, rust.depth);
    }
  }

  /** A client of depth 1 that is offered two leaves: the proof of the first no longer matches the root it kept. */
  method RefusedLeafSpoilsProofs(h: Hashing, first: Fr, refused: Fr)
    returns (client: ClientMerkle.ClientMerkleTree, r: Result<nat, ClientMerkle.TreeError>, p: MerkleProof)
    requires refused != h.seed
    ensures client.Valid() && client.hash == h && client.depth == 1 && client.initialized
    ensures client.accepted == [first] && client.leaves == [first, refused]
    ensures r == Failure(ClientMerkle.CapacityExceeded)
    ensures h.IsPathOf([first, refused], 1, 0, p) && h.Accepts(p)
    ensures p.root != client.root || CollidesAt(h, [first, refused], [first], 1, 1)
  {
    client := new ClientMerkle.ClientMerkleTree(h, 1);
    client.Init();
    var _ := client.Append(first);
    var refusal := client.Append(refused);
    r := Failure(refusal.error);
    var proof := client.Prove(0);
    p := proof.value;
    assert client.leaves == [first, refused];
    FullProofAgainstKeptRoot(client, 0, p);
  }

  /** What the three trees answer to the leaf at one index. */
  datatype Answers = Answers(
    rust: Result<(nat, Fr), RustMerkle.TreeError>,
    client: Result<(nat, Fr), ClientMerkle.TreeError>,
    pool: Result<Fr, PoolTree.PoolError>)

  /** The index and the root of the tree with that leaf, or three refusals at capacity. */
  ghost predicate AnswersAlike(a: Answers, index: nat, root: Fr, full: bool) {
    if full then
      a.rust.Failure? && a.client == Failure(ClientMerkle.CapacityExceeded) && a.pool == Failure(PoolTree.TreeCapacityExceeded)
    else
      a.rust == Success((index, root)) && a.client == Success((index, root)) && a.pool == Success(root)
  }

  /** The three trees side by side. */
  datatype Trio = Trio(rust: RustMerkle.MerkleTree, client: ClientMerkle.ClientMerkleTree, pool: PoolTree.TreeState)

  /** Three separate trees of one hash and depth that have accepted the same leaves. */
  ghost predicate InStep(t: Trio, h: Hashing, depth: nat, accepted: seq<Fr>)
    reads t.rust, t.rust.frontier, t.client, t.client.frontier, t.pool, t.pool.frontier, t.pool.rootRing
  {
    match t
    case Trio(rust, client, pool) =>
      && rust.Valid() && client.Valid() && client.initialized && pool.Valid()
      && rust.hash == client.hash == pool.hash == h && rust.depth == client.depth == pool.depth == depth
      && rust.accepted == client.accepted == pool.accepted == accepted
      && {rust, client, pool, rust.frontier} !! {client.frontier, pool.frontier, pool.rootRing}
      && client.frontier != pool.frontier && client.frontier != pool.rootRing
  }

  method NewTrio(h: Hashing, depth: nat) returns (t: Trio)
    requires depth >= 1
    ensures InStep(t, h, depth, [])
    ensures fresh(t.rust) && fresh(t.rust.frontier) && fresh(t.client) && fresh(t.client.frontier)
    ensures fresh(t.pool) && fresh(t.pool.frontier) && fresh(t.pool.rootRing)
  {
    var rust := new RustMerkle.MerkleTree.NewClient(h, depth);
    var client := new ClientMerkle.ClientMerkleTree(h, depth);
    client.Init();
    var pool := new PoolTree.TreeState(h, depth);
    t := Trio(rust, client, pool);
  }

  /** Offers one leaf to all three. */
  method Offer(t: Trio, leaf: Fr, ghost h: Hashing, ghost depth: nat, ghost accepted: seq<Fr>) returns (a: Answers)
    requires InStep(t, h, depth, accepted)
    modifies t.rust, t.rust.frontier, t.client, t.client.frontier, t.pool, t.pool.frontier, t.pool.rootRing
    ensures var full := |accepted| == Pow2(depth) - 1;
            && InStep(t, h, depth, if full then accepted else accepted + [leaf])
            && AnswersAlike(a, |accepted|, h.Root(accepted + [leaf], depth), full)
  {
    var r := t.rust.Append(leaf);
    var c := t.client.Append(leaf);
    var p := t.pool.Append(leaf);
    a := Answers(r, c, p);
  }

  /** The answers to every leaf of a replay so far. */
  ghost predicate AllAlike(answers: seq<Answers>, h: Hashing, depth: nat, leaves: seq<Fr>) {
    forall i {:trigger answers[i]} :: 0 <= i < |answers| <= |leaves| ==>
      AnswersAlike(answers[i], i, h.Root(leaves[..i + 1], depth), i >= Pow2(depth) - 1)
  }

  /** Of the leaves offered so far, those taken. */
  function Taken(leaves: seq<Fr>, depth: nat): seq<Fr> {
    if |leaves| < Pow2(depth) then leaves else leaves[..Pow2(depth) - 1]
  }

  lemma TakenNext(leaves: seq<Fr>, depth: nat, i: nat)
    requires i < |leaves|
    ensures var taken := Taken(leaves[..i], depth);
            && |taken| == (if i < Pow2(depth) then i else Pow2(depth) - 1)
            && (i < Pow2(depth) - 1 ==> taken + [leaves[i]] == leaves[..i + 1])
            && Taken(leaves[..i + 1], depth) == if |taken| == Pow2(depth) - 1 then taken else taken + [leaves[i]]
  {
  }

  lemma AllAlikeNext(answers: seq<Answers>, a: Answers, h: Hashing, depth: nat, leaves: seq<Fr>, i: nat)
    requires AllAlike(answers, h, depth, leaves) && |answers| == i < |leaves|
    requires var taken := Taken(leaves[..i], depth);
             AnswersAlike(a, |taken|, h.Root(taken + [leaves[i]], depth), |taken| == Pow2(depth) - 1)
    ensures AllAlike(answers + [a], h, depth, leaves)
  {
    TakenNext(leaves, depth, i);
    assert AnswersAlike(a, i, h.Root(leaves[..i + 1], depth), i >= Pow2(depth) - 1);
  }

  /**
   Replays one sequence of leaves into all three. They answer alike at every step, take the first
   2^depth - 1 leaves and refuse every later one.
   */
  method Replay(h: Hashing, depth: nat, leaves: seq<Fr>) returns (t: Trio, answers: seq<Answers>)
    requires depth >= 1
    ensures InStep(t, h, depth, Taken(leaves, depth))
    ensures |answers| == |leaves| && AllAlike(answers, h, depth, leaves)
  {
    t := NewTrio(h, depth);
    answers := [];
    for i := 0 to |leaves|
      invariant InStep(t, h, depth, Taken(leaves[..i], depth))
      invariant fresh(t.rust) && fresh(t.rust.frontier) && fresh(t.client) && fresh(t.client.frontier)
      invariant fresh(t.pool) && fresh(t.pool.frontier) && fresh(t.pool.rootRing)
      invariant |answers| == i && AllAlike(answers, h, depth, leaves)
    {
      TakenNext(leaves, depth, i);
      var a := Offer(t, leaves[i], h, depth, Taken(leaves[..i], depth));
      AllAlikeNext(answers, a, h, depth, leaves, i);
      answers := answers + [a];
    }
    assert leaves[..|leaves|] == leaves;
  }
}
