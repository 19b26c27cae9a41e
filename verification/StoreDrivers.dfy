/**
 packages/sdk/src/note-store.ts: whole runs on the store itself, and backfill invoked over and over.
 */
module StoreDrivers {
  import opened NoteData
  import opened NoteRuns
  import opened NoteStore
  import opened Paging
  import opened Scanning
  import opened Wrappers

  /** Whether the write of a step succeeds, if it makes one. */
  function FlagOf(wallet: Wallet, step: RunStep): seq<bool> {
    match step
    case Do(op, written) => if Writes(wallet, op) then [written] else []
    case Restart => []
  }

  /** Whether each write of a run succeeds, in order. */
  function WriteFlags(wallet: Wallet, run: seq<RunStep>): seq<bool> {
    if run == [] then [] else WriteFlags(wallet, run[..|run| - 1]) + FlagOf(wallet, run[|run| - 1])
  }

  lemma {:induction false} WriteFlagsPrefix(wallet: Wallet, run: seq<RunStep>, i: nat)
    requires i <= |run|
    ensures WriteFlags(wallet, run[..i]) <= WriteFlags(wallet, run)
  {
    if i < |run| {
      assert run[..|run| - 1][..i] == run[..i];
      WriteFlagsPrefix(wallet, run[..|run| - 1], i);
    } else {
      assert run[..i] == run;
    }
  }

  lemma NextStep(wallet: Wallet, run: seq<RunStep>, i: nat)
    requires i < |run|
    ensures Run(wallet, run[..i + 1]) == Step(wallet, Run(wallet, run[..i]), run[i])
    ensures |WriteFlags(wallet, run[..i + 1])| == |WriteFlags(wallet, run[..i])| + |FlagOf(wallet, run[i])|
    ensures var n, flags := |WriteFlags(wallet, run[..i])|, WriteFlags(wallet, run);
            run[i].Do? && Writes(wallet, run[i].op) ==> n < |flags| && flags[n] == run[i].written
  {
    assert run[..i + 1][..i] == run[..i];
    WriteFlagsPrefix(wallet, run, i + 1);
  }

  ghost function WorldOf(store: NoteStore): World
    reads store, store.disk
  {
    World(store.Mem(), store.disk.file)
  }

  /** Drives a store and its disk through a run: every call and every restart leaves them as the run says. */
  method Drive(wallet: Wallet, run: seq<RunStep>) returns (store: NoteStore, disk: Disk)
    ensures store.Valid() && store.disk == disk
    ensures store.Mem() == Run(wallet, run).mem && disk.file == Run(wallet, run).file
  {
    var flags := WriteFlags(wallet, run);
    var rpc := new Rpc(_ => [], _ => false, _ => Rejected);
    disk := new Disk((n: nat) => if n < |flags| then flags[n] else false);
    store := new NoteStore(wallet, rpc, disk, true);
    for i := 0 to |run|
      invariant store.Valid() && store.wallet == wallet && store.rpc == rpc && store.disk == disk && store.persists
      invariant fresh(store) && fresh(rpc) && fresh(disk)
      invariant forall n: nat {:trigger disk.writeOk(n)} :: n < |flags| ==> disk.writeOk(n) == flags[n]
      invariant disk.writes == |WriteFlags(wallet, run[..i])| && WorldOf(store) == Run(wallet, run[..i])
    {
      NextStep(wallet, run, i);
      store := Advance(store, run[i]);
    }
    assert run[..|run|] == run;
  }

  /** One step of a run, whose write turns out as the step says. */
  method Advance(store: NoteStore, step: RunStep) returns (next: NoteStore)
    requires store.Valid() && store.persists
    requires step.Do? && Writes(store.wallet, step.op) ==> step.written == store.disk.writeOk(store.disk.writes)
    modifies store, store.disk
    ensures next.Valid() && next.wallet == store.wallet && next.rpc == store.rpc && next.disk == store.disk && next.persists
    ensures next == store || fresh(next)
    ensures WorldOf(next) == Step(store.wallet, old(WorldOf(store)), step)
    ensures store.disk.writes == old(store.disk.writes) + |FlagOf(store.wallet, step)|
  {
    match step
    case Do(op, _) =>
      Call(store, op);
      next := store;
    case Restart =>
      next := new NoteStore(store.wallet, store.rpc, store.disk, true);
      next.Start();
  }

  method Call(store: NoteStore, op: Op)
    requires store.Valid() && store.persists
    modifies store, store.disk
    ensures store.Valid()
    ensures store.Mem() == Apply(store.wallet, old(store.Mem()), op)
    ensures if Writes(store.wallet, op) then
              && store.disk.writes == old(store.disk.writes) + 1
              && store.disk.file == if store.disk.writeOk(old(store.disk.writes)) then Snapshot(store.Mem()) else old(store.disk.file)
            else
              store.disk.writes == old(store.disk.writes) && store.disk.file == old(store.disk.file)
  {
    MutateFile(store.Env(), store.Now(), op);
    match op
    case Insert(n) => store.InsertNote(n);
    case Ingest(e) => var _ := store.IngestCommitment(e);
    case Mark(k) => store.MarkSpent(k);
  }

  // ----- Backfill, invoked again -----

  /** One backfill from the head: what it answers, what it leaves, and the signatures it scans. */
  datatype Round = Round(result: Option<BackfillResult>, before: Snap, after: Snap, visited: seq<Sig>)

  /** The head that the first page of the next backfill sees. */
  function HeadOf(node: Node, before: Snap): nat {
    |before.chain| + |node.arrivals(before.calls)|
  }

  /** A round is a backfill from the head: it leaves exactly the scan of its walk, and the move of the cursor if there is one. */
  ghost predicate IsRound(env: Setting, node: Node, limit: nat, r: Round) {
    match r
    case Round(result, before, after, visited) =>
      && before.chain <= after.chain && HeadOf(node, before) <= |after.chain|
      && Backfilled(env, node, result, visited, limit, HeadOf(node, before), before, after)
  }

  /** Rounds one after the other, from one snap to another. */
  ghost predicate AreRounds(env: Setting, node: Node, limit: nat, rounds: seq<Round>, first: Snap, last: Snap) {
    if rounds == [] then last == first
    else
      && AreRounds(env, node, limit, rounds[..|rounds| - 1], first, rounds[|rounds| - 1].before)
      && IsRound(env, node, limit, rounds[|rounds| - 1])
      && rounds[|rounds| - 1].after == last
  }

  lemma RoundsSnoc(env: Setting, node: Node, limit: nat, rounds: seq<Round>, r: Round, first: Snap)
    requires AreRounds(env, node, limit, rounds, first, r.before) && IsRound(env, node, limit, r)
    ensures AreRounds(env, node, limit, rounds + [r], first, r.after)
  {
    assert (rounds + [r])[..|rounds|] == rounds;
  }

  lemma RoundIs(env: Setting, node: Node, limit: nat, r: Round, high: nat)
    requires r.before.chain <= r.after.chain && high == HeadOf(node, r.before) <= |r.after.chain|
    requires Backfilled(env, node, r.result, r.visited, limit, high, r.before, r.after)
    ensures IsRound(env, node, limit, r)
  {
  }

  method Invoke(store: NoteStore, limit: nat) returns (result: Option<BackfillResult>, ghost round: Round)
    requires store.Valid()
    modifies store, store.rpc, store.disk
    ensures store.Valid()
    ensures round.result == result && round.before == old(store.At()) && round.after == store.At()
    ensures IsRound(store.Env(), store.NodeOf(), limit, round)
  {
    ghost var before := store.At();
    ghost var high, visited;
    result, high, visited := store.Backfill(limit, None, false);
    round := Round(result, before, store.At(), visited);
    RoundIs(store.Env(), store.NodeOf(), limit, round, high);
  }

  /** Invokes backfill n times, each from the head. */
  method Reinvoke(store: NoteStore, limit: nat, n: nat)
    returns (results: seq<Option<BackfillResult>>, ghost rounds: seq<Round>)
    requires store.Valid()
    modifies store, store.rpc, store.disk
    ensures store.Valid() && |results| == |rounds| == n
    ensures forall i {:trigger rounds[i]} :: 0 <= i < n ==> rounds[i].result == results[i]
    ensures AreRounds(store.Env(), store.NodeOf(), limit, rounds, old(store.At()), store.At())
  {
    results, rounds := [], [];
    ghost var env, node, first := store.Env(), store.NodeOf(), store.At();
    for i := 0 to n
      invariant store.Valid() && |results| == |rounds| == i
      invariant forall j {:trigger rounds[j]} :: 0 <= j < i ==> rounds[j].result == results[j]
      invariant AreRounds(env, node, limit, rounds, first, store.At())
    {
      var result;
      ghost var round;
      result, round := Invoke(store, limit);
      RoundsSnoc(env, node, limit, rounds, round, first);
      results, rounds := results + [result], rounds + [round];
    }
  }

  /** A call that is not rejected is truncated exactly if ten pages fit between its cursor and its head. */
  lemma RoundExact(env: Setting, node: Node, limit: nat, r: Round)
    requires IsRound(env, node, limit, r) && r.result.Some?
    ensures r.result.value.truncated <==> IsCutShort(HeadOf(node, r.before), Floor(r.before.m.mem.cursor), limit)
    ensures r.after.m.progress.scanned == r.before.m.progress.scanned + r.visited
    ensures !r.result.value.truncated ==>
              forall s: nat :: s < HeadOf(node, r.before) && s >= Floor(r.before.m.mem.cursor) && limit > 0 ==> s in r.visited
  {
    ScanAllIs(env, r.after.chain, r.before.m, r.visited);
    forall s: nat | s < HeadOf(node, r.before) && s >= Floor(r.before.m.mem.cursor) && limit > 0 && !r.result.value.truncated
      ensures s in r.visited
    {
      assert r.visited[HeadOf(node, r.before) - 1 - s] == s;
    }
  }

  /** Whatever of a list is not in another one is at or above a bound. */
  ghost predicate NoneBelow(scanned: seq<Sig>, already: seq<Sig>, bound: int) {
    forall s :: s in scanned ==> s in already || s >= bound
  }

  lemma NoneBelowMore(scanned: seq<Sig>, visited: seq<Sig>, already: seq<Sig>, bound: int)
    requires NoneBelow(scanned, already, bound) && NoneBelow(visited, [], bound)
    ensures NoneBelow(scanned + visited, already, bound)
  {
  }

  /** A round leaves the cursor, and scans nothing below ten pages from a head. */
  ghost predicate IsStuck(r: Round, limit: nat, head: nat) {
    match r
    case Round(result, before, after, visited) =>
      && (result.Some? ==> result.value.truncated && !result.value.cursorAdvanced)
      && after.m.mem.cursor == before.m.mem.cursor
      && after.m.progress.scanned == before.m.progress.scanned + visited
      && NoneBelow(visited, [], head - Full(limit, MAX_PAGES))
  }

  /** Once ten pages fit below some head, a round from that head or a higher one is stuck. */
  lemma RoundStuck(env: Setting, node: Node, limit: nat, r: Round, head: nat)
    requires IsRound(env, node, limit, r)
    requires head <= HeadOf(node, r.before) && IsCutShort(head, Floor(r.before.m.mem.cursor), limit)
    ensures IsStuck(r, limit, head)
  {
    ScanAllIs(env, r.after.chain, r.before.m, r.visited);
    assert |r.visited| <= Full(limit, MAX_PAGES);
  }

  /** Every round makes a call, and none sees a lower head than an earlier one. */
  lemma {:induction false} RoundsGrow(env: Setting, node: Node, limit: nat, rounds: seq<Round>, first: Snap, last: Snap)
    requires AreRounds(env, node, limit, rounds, first, last)
    ensures last.calls >= first.calls + |rounds|
    ensures rounds != [] ==> rounds[0].before == first && |last.chain| >= HeadOf(node, first)
  {
    if rounds != [] {
      var r := rounds[|rounds| - 1];
      RoundsGrow(env, node, limit, rounds[..|rounds| - 1], first, r.before);
      assert IsRound(env, node, limit, r);
    }
  }

  /**
   Once ten pages fit between the cursor and the head, every round is truncated unless a call is rejected,
   the cursor stays where it is, and no number of rounds scans anything below the first one's ten pages.
   */
  lemma {:induction false} StuckForGood(env: Setting, node: Node, limit: nat, rounds: seq<Round>, first: Snap, last: Snap)
    requires AreRounds(env, node, limit, rounds, first, last)
    requires IsCutShort(HeadOf(node, first), Floor(first.m.mem.cursor), limit)
    ensures forall i {:trigger rounds[i]} :: 0 <= i < |rounds| ==> IsStuck(rounds[i], limit, HeadOf(node, first))
    ensures last.m.mem.cursor == first.m.mem.cursor
    ensures NoneBelow(last.m.progress.scanned, first.m.progress.scanned, HeadOf(node, first) - Full(limit, MAX_PAGES))
  {
    if rounds != [] {
      var front, r := rounds[..|rounds| - 1], rounds[|rounds| - 1];
      StuckForGood(env, node, limit, front, first, r.before);
      RoundsGrow(env, node, limit, front, first, r.before);
      RoundStuck(env, node, limit, r, HeadOf(node, first));
      NoneBelowMore(r.before.m.progress.scanned, r.visited, first.m.progress.scanned, HeadOf(node, first) - Full(limit, MAX_PAGES));
      forall i | 0 <= i < |rounds|
        ensures IsStuck(rounds[i], limit, HeadOf(node, first))
      {
        assert i < |front| ==> rounds[i] == front[i];
      }
    }
  }

  /** In a run without rejected calls, every round answers. */
  lemma {:induction false} AllAnswer(env: Setting, node: Node, limit: nat, rounds: seq<Round>, first: Snap, last: Snap, i: nat)
    requires AreRounds(env, node, limit, rounds, first, last) && i < |rounds|
    requires forall c: nat :: !node.rejects(c)
    ensures rounds[i].result.Some?
  {
    var front, r := rounds[..|rounds| - 1], rounds[|rounds| - 1];
    if i < |front| {
      AllAnswer(env, node, limit, front, first, r.before, i);
    } else {
      assert IsRound(env, node, limit, r);
    }
  }

  /** A history of eleven transactions and pages of one: however often it is invoked, backfill never reaches the oldest. */
  method NeverCatchesUp(wallet: Wallet, n: nat) returns (store: NoteStore, results: seq<Option<BackfillResult>>)
    ensures |results| == n && forall i :: 0 <= i < n ==> results[i].Some? && results[i].value.truncated
    ensures store.Valid() && store.cursor == None && 0 !in store.progress.scanned
    ensures store.rpc.calls >= n && (n > 0 ==> |store.rpc.chain| >= 11)
  {
    var txs := seq(11, _ => Tx(false, []));
    var rpc := new Rpc(c => if c == 0 then txs else [], _ => false, _ => Logs);
    var disk := new Disk(_ => true);
    store := new NoteStore(wallet, rpc, disk, true);
    ghost var first, node := store.At(), store.NodeOf();
    ghost var rounds;
    results, rounds := Reinvoke(store, 1, n);
    CutShortIff(11, 0, 1);
    FullIsProduct(1, MAX_PAGES);
    RoundsGrow(store.Env(), node, 1, rounds, first, store.At());
    StuckForGood(store.Env(), node, 1, rounds, first, store.At());
    forall i | 0 <= i < n
      ensures results[i].Some? && results[i].value.truncated
    {
      AllAnswer(store.Env(), node, 1, rounds, first, store.At(), i);
      assert IsStuck(rounds[i], 1, 11) && rounds[i].result == results[i];
    }
  }
}
