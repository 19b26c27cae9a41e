/**
 packages/sdk/src/note-store.ts: backfill calls that overlap with each other and with everything else.
 Each runs in the steps between which it awaits, over one history, one store and one disk.
 */
module Overlap {
  import opened NoteData
  import opened Paging
  import opened Scanning
  import opened TextCodec
  import opened Wrappers

  /** Logs in hand: of which signature, how many of its events are dealt with, and whether the next is being decrypted. */
  datatype Hand = Hand(sig: Sig, taken: nat, opening: bool)

  /**
   A call under way: the floor of the cursor it read, and where its walk stands. In the middle of a page,
   done of its signatures are dealt with. high is the top of its first page.
   */
  datatype Call = Call(floor: nat, limit: nat, before: Option<Sig>, high: nat, w: Walk,
                       page: Option<seq<Sig>>, done: nat, hand: Option<Hand>)

  /** got is every signature that came back with logs to any call of this process. */
  datatype Shared = Shared(chain: seq<Tx>, m: Moment, got: seq<Sig>, calls: map<nat, Call>)

  datatype Action =
    | Arrive(txs: seq<Tx>)
    | Begin(id: nat, limit: nat, before: Option<Sig>, genesis: bool)
    | Answer(id: nat)
    | Reject(id: nat)
    | Fetch(id: nat)
    | Look(id: nat)
    | Decrypt(id: nat)
    | Finish(id: nat)
    | TurnOver(id: nat)
    | Do(op: Op)
    | Restart

  const NOTHING := Progress([], [], [])
  const INITIAL := Shared([], Moment(EMPTY, NOTHING, 0, 0, []), [], map[])

  function Page(top: nat, floor: nat, limit: nat): (p: seq<Sig>)
    ensures |p| == PageSize(top, floor, limit)
    ensures forall i {:trigger p[i]} :: 0 <= i < |p| ==> p[i] == top - 1 - i
  {
    seq(PageSize(top, floor, limit), i requires 0 <= i < top => top - 1 - i)
  }

  function Started(floor: nat, limit: nat, before: Option<Sig>): Call {
    Call(floor, limit, before, 0, Walk(0, before, None, []), None, 0, None)
  }

  /** The signatures call answers: the next page, down from where the walk stands to the cursor the call read. */
  function Answered(c: Call, length: nat): Call {
    c.(high := if c.w.page == 0 then Top(length, c.before) else c.high,
       page := Some(Page(Top(length, c.w.older), c.floor, c.limit)), done := 0)
  }

  predicate IsFetching(c: Call) {
    c.page.Some? && c.hand.None? && c.done < |c.page.value|
  }

  predicate IsThrough(c: Call) {
    c.page.Some? && c.hand.None? && c.done >= |c.page.value|
  }

  /** The first event of the logs in hand that is not dealt with. */
  function NextEvent(chain: seq<Tx>, h: Hand): Option<Event> {
    if h.sig < |chain| && h.taken < |chain[h.sig].events| then Some(chain[h.sig].events[h.taken]) else None
  }

  predicate IsLooking(c: Call, chain: seq<Tx>) {
    c.hand.Some? && !c.hand.value.opening && NextEvent(chain, c.hand.value).Some?
  }

  predicate IsOpening(c: Call, chain: seq<Tx>) {
    c.hand.Some? && c.hand.value.opening && NextEvent(chain, c.hand.value).Some?
  }

  predicate IsFinishing(c: Call, chain: seq<Tx>) {
    c.hand.Some? && !c.hand.value.opening && NextEvent(chain, c.hand.value).None?
  }

  /** One signature through the fetch step: a failed transaction is not fetched, and only logs are taken in hand. */
  function FetchOne(env: Setting, s: Shared, id: nat): Shared
    requires id in s.calls && IsFetching(s.calls[id])
  {
    var c := s.calls[id];
    var sig := c.page.value[c.done];
    if !IsTried(s.chain, sig) then
      s.(m := Seen(s.m, sig, s.m.fetches), calls := s.calls[id := c.(done := c.done + 1)])
    else if env.outcome(s.m.fetches) != Logs then
      s.(m := Seen(s.m, sig, s.m.fetches + 1), calls := s.calls[id := c.(done := c.done + 1)])
    else
      s.(m := Seen(s.m, sig, s.m.fetches + 1), got := s.got + [sig], calls := s.calls[id := c.(hand := Some(Hand(sig, 0, false)))])
  }

  /** How far a call is with the logs it has in hand. */
  function WithHand(s: Shared, id: nat, taken: nat, opening: bool): Shared
    requires id in s.calls && s.calls[id].hand.Some?
  {
    var c := s.calls[id];
    s.(calls := s.calls[id := c.(hand := Some(Hand(c.hand.value.sig, taken, opening)))])
  }

  /** The next event of the logs in hand: a commitment that is held already is skipped. */
  function LookOne(s: Shared, id: nat): Shared
    requires id in s.calls && IsLooking(s.calls[id], s.chain)
  {
    var h := s.calls[id].hand.value;
    if Has(s.m.mem.notes, ToDecimal(NextEvent(s.chain, h).value.commitment)) then WithHand(s, id, h.taken + 1, false)
    else WithHand(s, id, h.taken, true)
  }

  /** ingestCommitment comes back. */
  function DecryptOne(env: Setting, s: Shared, id: nat): Shared
    requires id in s.calls && IsOpening(s.calls[id], s.chain)
  {
    var h := s.calls[id].hand.value;
    WithHand(s.(m := Mutate(env, s.m, Ingest(NextEvent(s.chain, h).value))), id, h.taken + 1, false)
  }

  /** All events of the logs in hand are dealt with. */
  function FinishOne(s: Shared, id: nat): Shared
    requires id in s.calls && IsFinishing(s.calls[id], s.chain)
  {
    var c := s.calls[id];
    s.(m := Fetched(s.m, c.hand.value.sig), calls := s.calls[id := c.(hand := None, done := c.done + 1)])
  }

  /** What a call does after its loop: it moves the cursor if the walk was not cut short and the cursor stands elsewhere. */
  function Ended(env: Setting, m: Moment, end: Ending): Moment {
    Moved(env, m, if !end.truncated && end.newest != m.mem.cursor then end.newest else None)
  }

  /** A page is through: the walk goes on below it, or the call ends. */
  function TurnOne(env: Setting, s: Shared, id: nat): Shared
    requires id in s.calls && IsThrough(s.calls[id])
  {
    var c := s.calls[id];
    var (done, next) := Turn(c.limit, c.page.value, c.w);
    if done.None? then s.(calls := s.calls[id := c.(w := next, page := None, done := 0)])
    else s.(m := Ended(env, s.m, done.value), calls := s.calls - {id})
  }

  /** A new process hydrates from the file and knows of no calls. */
  function Restarted(env: Setting, s: Shared): Shared {
    if env.persists && s.m.journal != [] then
      var known := Recovered(s.m.journal[|s.m.journal| - 1]);
      Shared(s.chain, s.m.(mem := Hydrated(EMPTY, FileOf(s.m.journal)), progress := known), known.fetched, map[])
    else
      Shared(s.chain, s.m.(mem := EMPTY, progress := NOTHING), [], map[])
  }

  /** One step; a step that is not due changes nothing. */
  function Step(env: Setting, s: Shared, a: Action): Shared {
    match a
    case Arrive(txs) => s.(chain := s.chain + txs)
    case Begin(id, limit, before, genesis) =>
      if id in s.calls then s
      else
        var cursor := if genesis then None else s.m.mem.cursor;
        s.(m := s.m.(mem := s.m.mem.(cursor := cursor)), calls := s.calls[id := Started(Floor(cursor), limit, before)])
    case Answer(id) =>
      if id !in s.calls || s.calls[id].page.Some? then s
      else s.(calls := s.calls[id := Answered(s.calls[id], |s.chain|)])
    case Reject(id) =>
      if id !in s.calls || s.calls[id].page.Some? then s else s.(calls := s.calls - {id})
    case Fetch(id) =>
      if id !in s.calls || !IsFetching(s.calls[id]) then s else FetchOne(env, s, id)
    case Look(id) =>
      if id !in s.calls || !IsLooking(s.calls[id], s.chain) then s else LookOne(s, id)
    case Decrypt(id) =>
      if id !in s.calls || !IsOpening(s.calls[id], s.chain) then s else DecryptOne(env, s, id)
    case Finish(id) =>
      if id !in s.calls || !IsFinishing(s.calls[id], s.chain) then s else FinishOne(s, id)
    case TurnOver(id) =>
      if id !in s.calls || !IsThrough(s.calls[id]) then s else TurnOne(env, s, id)
    case Do(op) => s.(m := Mutate(env, s.m, op))
    case Restart => Restarted(env, s)
  }

  function Run(env: Setting, actions: seq<Action>): Shared {
    if actions == [] then INITIAL else Step(env, Run(env, actions[..|actions| - 1]), actions[|actions| - 1])
  }

  // ----- What every interleaving keeps -----

  /** Everything below a position has been through the fetch step. */
  ghost predicate ScannedBelow(scanned: seq<Sig>, high: nat) {
    forall s: nat {:trigger s in scanned} :: s < high ==> s in scanned
  }

  ghost predicate Holds(scanned: seq<Sig>, visited: seq<Sig>) {
    forall i {:trigger visited[i]} :: 0 <= i < |visited| ==> visited[i] in scanned
  }

  ghost predicate Includes(more: seq<Sig>, fewer: seq<Sig>) {
    forall s {:trigger s in more} {:trigger s in fewer} :: s in fewer ==> s in more
  }

  /** What a call under way has done and knows: everything below its floor, and down from its top. */
  ghost predicate IsSound(c: Call, length: nat, scanned: seq<Sig>) {
    && c.floor <= length && ScannedBelow(scanned, c.floor)
    && c.w.page < MAX_PAGES
    && Holds(scanned, c.w.visited)
    && (if c.w.page == 0 && c.page.None? then
          c.w == Walk(0, c.before, None, [])
        else
          c.high <= length && WalkAt(c.high, c.floor, c.limit, c.before, c.w))
    && (c.page.Some? ==>
          && |c.w.visited| <= c.high
          && IsDown(c.page.value, c.high - |c.w.visited|, PageSize(c.high - |c.w.visited|, c.floor, c.limit))
          && c.done <= |c.page.value| && Holds(scanned, c.page.value[..c.done]))
  }

  /** The first events of a transaction have left their notes in the map. */
  ghost predicate TakenIn(wallet: Wallet, events: seq<Event>, taken: nat, notes: seq<Entry>) {
    && taken <= |events|
    && forall i {:trigger events[i]} :: 0 <= i < taken && wallet.Claim(events[i]).Some? ==> Has(notes, ToDecimal(events[i].commitment))
  }

  /** Logs in hand are of the signature the call has come to, and their first events are taken in. */
  ghost predicate HandSound(wallet: Wallet, s: Shared, c: Call) {
    match c.hand
    case None => true
    case Some(Hand(sig, taken, _)) =>
      && c.page.Some? && c.done < |c.page.value| && sig == c.page.value[c.done]
      && sig < |s.chain| && sig in s.m.progress.scanned && sig in s.got
      && TakenIn(wallet, s.chain[sig].events, taken, s.m.mem.notes)
  }

  ghost predicate CallSound(wallet: Wallet, s: Shared, c: Call) {
    match s
    case Shared(chain, m, _, _) => IsSound(c, |chain|, m.progress.scanned) && HandSound(wallet, s, c)
  }

  ghost predicate HoldsLogs(s: Shared, id: nat, sig: Sig) {
    id in s.calls && s.calls[id].hand.Some? && s.calls[id].hand.value.sig == sig
  }

  /** What came back with logs has been taken in or is in some call's hand. */
  ghost predicate GotSound(s: Shared) {
    forall sig {:trigger sig in s.got} :: sig in s.got ==> sig in s.m.progress.fetched || exists id :: HoldsLogs(s, id, sig)
  }

  ghost predicate IsSoundState(env: Setting, s: Shared) {
    match s
    case Shared(chain, m, _, calls) =>
      && SoundAt(env.wallet, chain, m)
      && (forall id {:trigger calls[id]} :: id in calls ==> CallSound(env.wallet, s, calls[id]))
      && GotSound(s)
  }

  /** Nothing is forgotten from one state to another. */
  ghost predicate Grows(s: Shared, t: Shared) {
    && s.chain <= t.chain && Includes(t.got, s.got)
    && Includes(t.m.progress.scanned, s.m.progress.scanned) && Includes(t.m.progress.fetched, s.m.progress.fetched)
    && Keeps(s.m.mem.notes, t.m.mem.notes)
  }

  lemma StaysSound(wallet: Wallet, s: Shared, t: Shared, c: Call)
    requires CallSound(wallet, s, c) && Grows(s, t)
    ensures CallSound(wallet, t, c)
  {
  }

  /** Every call but one is as before. */
  ghost predicate OthersSame(s: Shared, t: Shared, id: nat) {
    forall j {:trigger s.calls[j]} {:trigger t.calls[j]} :: j != id ==>
      (j in t.calls <==> j in s.calls) && (j in t.calls ==> t.calls[j] == s.calls[j])
  }

  /** A step that touches one call at most, and does not lose the logs it has in hand. */
  lemma OthersStay(env: Setting, s: Shared, t: Shared, id: nat)
    requires IsSoundState(env, s) && SoundAt(env.wallet, t.chain, t.m) && Grows(s, t) && OthersSame(s, t, id)
    requires id in t.calls ==> CallSound(env.wallet, t, t.calls[id])
    requires forall sig {:trigger sig in t.got} :: sig in t.got ==> sig in s.got || HoldsLogs(t, id, sig)
    requires forall sig {:trigger HoldsLogs(s, id, sig)} :: HoldsLogs(s, id, sig) ==> HoldsLogs(t, id, sig) || sig in t.m.progress.fetched
    ensures IsSoundState(env, t)
  {
    forall j | j in t.calls && j != id
      ensures CallSound(env.wallet, t, t.calls[j])
    {
      StaysSound(env.wallet, s, t, s.calls[j]);
    }
    forall sig | sig in t.got && sig !in t.m.progress.fetched
      ensures exists j :: HoldsLogs(t, j, sig)
    {
      if !HoldsLogs(t, id, sig) {
        assert sig in s.got;
        var j :| HoldsLogs(s, j, sig);
        assert j != id && HoldsLogs(t, j, sig);
      }
    }
  }

  lemma UntilOf(floor: nat) returns (until: Option<Sig>)
    ensures Floor(until) == floor
  {
    until := if floor == 0 then None else Some(floor - 1);
  }

  /** A step that touches no call. */
  lemma AllStay(env: Setting, s: Shared, t: Shared)
    requires IsSoundState(env, s) && SoundAt(env.wallet, t.chain, t.m) && Grows(s, t) && t.calls == s.calls && t.got == s.got
    ensures IsSoundState(env, t)
  {
    forall id | id in t.calls
      ensures CallSound(env.wallet, t, t.calls[id])
    {
      StaysSound(env.wallet, s, t, s.calls[id]);
    }
    forall sig | sig in t.got && sig !in t.m.progress.fetched
      ensures exists j :: HoldsLogs(t, j, sig)
    {
      var j :| HoldsLogs(s, j, sig);
      assert HoldsLogs(t, j, sig);
    }
  }

  lemma ArriveKeeps(env: Setting, s: Shared, txs: seq<Tx>)
    requires IsSoundState(env, s)
    ensures IsSoundState(env, s.(chain := s.chain + txs))
  {
    SoundOnLongerChain(env.wallet, s.chain, txs, s.m);
    AllStay(env, s, s.(chain := s.chain + txs));
  }

  lemma BeginKeeps(env: Setting, s: Shared, id: nat, limit: nat, before: Option<Sig>, genesis: bool)
    requires IsSoundState(env, s)
    ensures IsSoundState(env, Step(env, s, Begin(id, limit, before, genesis)))
  {
    if id !in s.calls {
      OthersStay(env, s, Step(env, s, Begin(id, limit, before, genesis)), id);
    }
  }

  lemma AnswerIsSound(c: Call, length: nat, scanned: seq<Sig>)
    requires IsSound(c, length, scanned) && c.page.None?
    ensures IsSound(Answered(c, length), length, scanned)
  {
    var high := if c.w.page == 0 then Top(length, c.before) else c.high;
    var until := UntilOf(c.floor);
    PageFollows(high, until, c.limit, c.before, c.w, length);
  }

  lemma AnswerKeeps(env: Setting, s: Shared, id: nat)
    requires IsSoundState(env, s)
    ensures IsSoundState(env, Step(env, s, Answer(id)))
  {
    if id in s.calls && s.calls[id].page.None? {
      AnswerIsSound(s.calls[id], |s.chain|, s.m.progress.scanned);
      OthersStay(env, s, Step(env, s, Answer(id)), id);
    }
  }

  lemma NextIsSound(c: Call, length: nat, scanned: seq<Sig>)
    requires IsSound(c, length, scanned) && c.page.Some? && c.done < |c.page.value| && c.page.value[c.done] in scanned
    ensures IsSound(c.(hand := None, done := c.done + 1), length, scanned)
  {
    var page := c.page.value;
    assert page[..c.done + 1] == page[..c.done] + [page[c.done]];
  }

  lemma SeenKeeps(env: Setting, s: Shared, sig: Sig, fetches: nat)
    requires IsSoundState(env, s)
    ensures IsSoundState(env, s.(m := Seen(s.m, sig, fetches)))
  {
    SeenSound(env.wallet, s.chain, s.m, sig, fetches);
    AllStay(env, s, s.(m := Seen(s.m, sig, fetches)));
  }

  /** A signature without logs. */
  lemma SkipKeeps(env: Setting, s: Shared, id: nat)
    requires IsSoundState(env, s) && id in s.calls && IsFetching(s.calls[id])
    requires s.calls[id].page.value[s.calls[id].done] in s.m.progress.scanned
    ensures IsSoundState(env, s.(calls := s.calls[id := s.calls[id].(done := s.calls[id].done + 1)]))
  {
    NextIsSound(s.calls[id], |s.chain|, s.m.progress.scanned);
    OthersStay(env, s, s.(calls := s.calls[id := s.calls[id].(done := s.calls[id].done + 1)]), id);
  }

  /** A signature with logs. */
  lemma GotKeeps(env: Setting, s: Shared, id: nat, sig: Sig)
    requires IsSoundState(env, s) && id in s.calls && IsFetching(s.calls[id])
    requires sig == s.calls[id].page.value[s.calls[id].done] && sig in s.m.progress.scanned && sig < |s.chain|
    ensures IsSoundState(env, s.(got := s.got + [sig], calls := s.calls[id := s.calls[id].(hand := Some(Hand(sig, 0, false)))]))
  {
    var t := s.(got := s.got + [sig], calls := s.calls[id := s.calls[id].(hand := Some(Hand(sig, 0, false)))]);
    StaysSound(env.wallet, s, t, s.calls[id]);
    OthersStay(env, s, t, id);
  }

  lemma FetchKeeps(env: Setting, s: Shared, id: nat)
    requires IsSoundState(env, s) && id in s.calls && IsFetching(s.calls[id])
    ensures IsSoundState(env, FetchOne(env, s, id))
  {
    var sig := s.calls[id].page.value[s.calls[id].done];
    var fetches := FetchOne(env, s, id).m.fetches;
    var seen := s.(m := Seen(s.m, sig, fetches));
    SeenKeeps(env, s, sig, fetches);
    if IsTried(s.chain, sig) && env.outcome(s.m.fetches) == Logs {
      GotKeeps(env, seen, id, sig);
    } else {
      SkipKeeps(env, seen, id);
    }
  }

  /** One more event dealt with. */
  lemma TakenOne(wallet: Wallet, events: seq<Event>, taken: nat, notes: seq<Entry>)
    requires TakenIn(wallet, events, taken, notes) && taken < |events|
    requires wallet.Claim(events[taken]).Some? ==> Has(notes, ToDecimal(events[taken].commitment))
    ensures TakenIn(wallet, events, taken + 1, notes)
  {
  }

  lemma HandMoves(env: Setting, s: Shared, id: nat, taken: nat, opening: bool)
    requires IsSoundState(env, s) && id in s.calls && s.calls[id].hand.Some?
    requires var sig := s.calls[id].hand.value.sig; sig < |s.chain| && TakenIn(env.wallet, s.chain[sig].events, taken, s.m.mem.notes)
    ensures IsSoundState(env, WithHand(s, id, taken, opening))
  {
    OthersStay(env, s, WithHand(s, id, taken, opening), id);
  }

  lemma LookTakes(wallet: Wallet, s: Shared, id: nat) returns (taken: nat, opening: bool)
    requires id in s.calls && IsLooking(s.calls[id], s.chain) && HandSound(wallet, s, s.calls[id])
    ensures LookOne(s, id) == WithHand(s, id, taken, opening)
    ensures TakenIn(wallet, s.chain[s.calls[id].hand.value.sig].events, taken, s.m.mem.notes)
  {
    var h := s.calls[id].hand.value;
    opening := !Has(s.m.mem.notes, ToDecimal(NextEvent(s.chain, h).value.commitment));
    taken := if opening then h.taken else h.taken + 1;
  }

  lemma LookKeeps(env: Setting, s: Shared, id: nat)
    requires IsSoundState(env, s) && id in s.calls && IsLooking(s.calls[id], s.chain)
    ensures IsSoundState(env, LookOne(s, id))
  {
    assert CallSound(env.wallet, s, s.calls[id]);
    var taken, opening := LookTakes(env.wallet, s, id);
    HandMoves(env, s, id, taken, opening);
  }

  /** A call of the store forgets nothing. */
  lemma MutateGrows(env: Setting, m: Moment, op: Op)
    requires WellKeyed(m.mem.notes)
    ensures var after := Mutate(env, m, op);
            && after.progress.scanned == m.progress.scanned && after.progress.fetched == m.progress.fetched
            && after.mem.cursor == m.mem.cursor && Keeps(m.mem.notes, after.mem.notes)
    ensures op.Ingest? && env.wallet.Claim(op.event).Some? ==> Has(Mutate(env, m, op).mem.notes, ToDecimal(op.event.commitment))
  {
    match op
    case Insert(n) => PutGrows(m.mem.notes, ToDecimal(n.commitment), n);
    case Ingest(e) =>
      if env.wallet.Claim(e).Some? {
        PutGrows(m.mem.notes, ToDecimal(e.commitment), env.wallet.Claim(e).value);
      }
    case Mark(_) =>
  }

  lemma PutGrows(notes: seq<Entry>, key: string, n: SpendableNote)
    ensures Keeps(notes, Put(notes, key, n)) && Has(Put(notes, key, n), key)
  {
    forall k | Has(notes, k) || k == key
      ensures Has(Put(notes, key, n), k)
    {
      PutHas(notes, key, n, k);
    }
  }

  lemma DoKeeps(env: Setting, s: Shared, op: Op)
    requires IsSoundState(env, s)
    ensures IsSoundState(env, s.(m := Mutate(env, s.m, op)))
  {
    MutateSound(env, s.chain, s.m, op);
    MutateGrows(env, s.m, op);
    AllStay(env, s, s.(m := Mutate(env, s.m, op)));
  }

  lemma DecryptTakes(env: Setting, s: Shared, id: nat, h: Hand, e: Event)
    requires id in s.calls && s.calls[id].hand == Some(h) && HandSound(env.wallet, s, s.calls[id])
    requires NextEvent(s.chain, h) == Some(e) && WellKeyed(s.m.mem.notes)
    ensures h.sig < |s.chain| && TakenIn(env.wallet, s.chain[h.sig].events, h.taken + 1, Mutate(env, s.m, Ingest(e)).mem.notes)
  {
    MutateGrows(env, s.m, Ingest(e));
    TakenOne(env.wallet, s.chain[h.sig].events, h.taken, Mutate(env, s.m, Ingest(e)).mem.notes);
  }

  lemma DecryptSound(env: Setting, s: Shared, id: nat, h: Hand, e: Event) returns (u: Shared)
    requires IsSoundState(env, s) && id in s.calls && s.calls[id].hand == Some(h) && NextEvent(s.chain, h) == Some(e)
    requires h.opening
    ensures IsSoundState(env, u) && u.calls == s.calls && DecryptOne(env, s, id) == WithHand(u, id, h.taken + 1, false)
    ensures h.sig < |u.chain| && TakenIn(env.wallet, u.chain[h.sig].events, h.taken + 1, u.m.mem.notes)
  {
    assert CallSound(env.wallet, s, s.calls[id]);
    DecryptTakes(env, s, id, h, e);
    DoKeeps(env, s, Ingest(e));
    u := s.(m := Mutate(env, s.m, Ingest(e)));
  }

  lemma DecryptKeeps(env: Setting, s: Shared, id: nat)
    requires IsSoundState(env, s) && id in s.calls && IsOpening(s.calls[id], s.chain)
    ensures IsSoundState(env, DecryptOne(env, s, id))
  {
    var h := s.calls[id].hand.value;
    var u := DecryptSound(env, s, id, h, NextEvent(s.chain, h).value);
    HandMoves(env, u, id, h.taken + 1, false);
  }

  lemma FinishKeeps(env: Setting, s: Shared, id: nat)
    requires IsSoundState(env, s) && id in s.calls && IsFinishing(s.calls[id], s.chain)
    ensures IsSoundState(env, FinishOne(s, id))
  {
    var c := s.calls[id];
    FetchedSound(env.wallet, s.chain, s.m, c.hand.value.sig);
    NextIsSound(c, |s.chain|, s.m.progress.scanned);
    OthersStay(env, s, FinishOne(s, id), id);
  }

  /** A walk that ends untruncated has left nothing unscanned below its newest signature. */
  lemma TurnIsSound(c: Call, length: nat, scanned: seq<Sig>)
    requires IsSound(c, length, scanned) && IsThrough(c)
    ensures var (done, next) := Turn(c.limit, c.page.value, c.w);
            if done.None? then
              IsSound(c.(w := next, page := None, done := 0), length, scanned)
            else
              !done.value.truncated && done.value.newest.Some? ==>
                && done.value.newest.value + 1 == c.high <= length && ScannedBelow(scanned, c.high)
                && c.floor < c.high
  {
    var until := UntilOf(c.floor);
    var page := c.page.value;
    TurnWalks(c.high, until, c.limit, c.before, c.w, page);
    assert page[..c.done] == page;
    var (done, next) := Turn(c.limit, page, c.w);
    assert Holds(scanned, next.visited);
    if done.Some? && !done.value.truncated && done.value.newest.Some? {
      forall s: nat | s < c.high
        ensures s in scanned
      {
        if s >= c.floor {
          assert next.visited[c.high - 1 - s] == s;
        }
      }
    }
  }

  lemma EndedSound(env: Setting, chain: seq<Tx>, m: Moment, end: Ending)
    requires SoundAt(env.wallet, chain, m)
    requires !end.truncated && end.newest.Some? ==> end.newest.value < |chain| && ScannedBelow(m.progress.scanned, end.newest.value + 1)
    ensures SoundAt(env.wallet, chain, Ended(env, m, end))
    ensures Ended(env, m, end).progress == m.progress && Ended(env, m, end).mem.notes == m.mem.notes
  {
    if !end.truncated && end.newest.Some? {
      MoveCursorSound(env.wallet, chain, m, end.newest);
      SaveSound(env, chain, m.(mem := m.mem.(cursor := end.newest)));
    }
  }

  lemma TurnOverKeeps(env: Setting, s: Shared, id: nat)
    requires IsSoundState(env, s) && id in s.calls && IsThrough(s.calls[id])
    ensures IsSoundState(env, TurnOne(env, s, id))
  {
    var c := s.calls[id];
    TurnIsSound(c, |s.chain|, s.m.progress.scanned);
    var done := Turn(c.limit, c.page.value, c.w).0;
    if done.Some? {
      EndedSound(env, s.chain, s.m, done.value);
    }
    OthersStay(env, s, TurnOne(env, s, id), id);
  }

  lemma RestartKeeps(env: Setting, s: Shared)
    requires IsSoundState(env, s)
    ensures IsSoundState(env, Restarted(env, s))
  {
    if env.persists && s.m.journal != [] {
      LastIsSound(env.wallet, s.chain, s.m, FileOf(s.m.journal));
    }
  }

  lemma RejectKeeps(env: Setting, s: Shared, id: nat)
    requires IsSoundState(env, s)
    ensures IsSoundState(env, Step(env, s, Reject(id)))
  {
    if id in s.calls && s.calls[id].page.None? {
      OthersStay(env, s, Step(env, s, Reject(id)), id);
    }
  }

  lemma FetchStepKeeps(env: Setting, s: Shared, id: nat)
    requires IsSoundState(env, s)
    ensures IsSoundState(env, Step(env, s, Fetch(id)))
  {
    if id in s.calls && IsFetching(s.calls[id]) {
      FetchKeeps(env, s, id);
    }
  }

  lemma LookStepKeeps(env: Setting, s: Shared, id: nat)
    requires IsSoundState(env, s)
    ensures IsSoundState(env, Step(env, s, Look(id)))
  {
    if id in s.calls && IsLooking(s.calls[id], s.chain) {
      LookKeeps(env, s, id);
    }
  }

  lemma DecryptStepKeeps(env: Setting, s: Shared, id: nat)
    requires IsSoundState(env, s)
    ensures IsSoundState(env, Step(env, s, Decrypt(id)))
  {
    if id in s.calls && IsOpening(s.calls[id], s.chain) {
      DecryptKeeps(env, s, id);
    }
  }

  lemma FinishStepKeeps(env: Setting, s: Shared, id: nat)
    requires IsSoundState(env, s)
    ensures IsSoundState(env, Step(env, s, Finish(id)))
  {
    if id in s.calls && IsFinishing(s.calls[id], s.chain) {
      FinishKeeps(env, s, id);
    }
  }

  lemma TurnOverStepKeeps(env: Setting, s: Shared, id: nat)
    requires IsSoundState(env, s)
    ensures IsSoundState(env, Step(env, s, TurnOver(id)))
  {
    if id in s.calls && IsThrough(s.calls[id]) {
      TurnOverKeeps(env, s, id);
    }
  }

  lemma StepKeeps(env: Setting, s: Shared, a: Action)
    requires IsSoundState(env, s)
    ensures IsSoundState(env, Step(env, s, a))
  {
    match a
    case Arrive(txs) => ArriveKeeps(env, s, txs);
    case Begin(id, limit, before, genesis) => BeginKeeps(env, s, id, limit, before, genesis);
    case Answer(id) => AnswerKeeps(env, s, id);
    case Reject(id) => RejectKeeps(env, s, id);
    case Fetch(id) => FetchStepKeeps(env, s, id);
    case Look(id) => LookStepKeeps(env, s, id);
    case Decrypt(id) => DecryptStepKeeps(env, s, id);
    case Finish(id) => FinishStepKeeps(env, s, id);
    case TurnOver(id) => TurnOverStepKeeps(env, s, id);
    case Do(op) => DoKeeps(env, s, op);
    case Restart => RestartKeeps(env, s);
  }

  /** However calls overlap, the store stays sound in memory and on disk. */
  lemma {:induction false} AlwaysSound(env: Setting, actions: seq<Action>)
    ensures IsSoundState(env, Run(env, actions))
  {
    if actions != [] {
      AlwaysSound(env, actions[..|actions| - 1]);
      StepKeeps(env, Run(env, actions[..|actions| - 1]), actions[|actions| - 1]);
    }
  }

  /**
   Crash safety amid everything: whichever snapshot a crash leaves of any interleaving, a new store
   hydrated from it holds each of the wallet's notes from every transaction at or older than the saved
   cursor whose logs some call had taken in.
   */
  lemma CrashSafeAmid(env: Setting, actions: seq<Action>, k: nat, s: Sig, e: Event)
    requires var journal := Run(env, actions).m.journal;
             k < |journal| && journal[k].mem.cursor.Some? && s <= journal[k].mem.cursor.value
    ensures var r, chain := Run(env, actions), Run(env, actions).chain;
            var saved := r.m.journal[k];
            && Hydrated(EMPTY, Snapshot(saved.mem)) == saved.mem
            && s < |chain| && s in saved.progress.scanned
            && (s in saved.progress.fetched && e in chain[s].events && env.wallet.Claim(e).Some? ==>
                  exists entry :: entry in Hydrated(EMPTY, Snapshot(saved.mem)).notes
                                  && entry.key == ToDecimal(e.commitment)
                                  && entry.note.commitment == e.commitment && entry.note in saved.progress.given)
  {
    AlwaysSound(env, actions);
    var r := Run(env, actions);
    assert SoundAt(env.wallet, r.chain, r.m);
    CrashSafe(env.wallet, r.chain, r.m.journal, k, s, e);
  }

  // ----- Logs in hand -----

  /** Everything at or older than the cursor that ever came back with logs has left its notes in the map. */
  ghost predicate NoneMissed(wallet: Wallet, s: Shared) {
    forall sig {:trigger sig in s.got} :: sig in s.got && sig < Floor(s.m.mem.cursor) ==>
      sig < |s.chain| && Covered(wallet, s.chain[sig], s.m.mem.notes)
  }

  /** No call has logs in hand that the cursor has passed and of which a note is missing. */
  ghost predicate NoneInHand(wallet: Wallet, s: Shared) {
    forall id {:trigger s.calls[id]} :: id in s.calls && s.calls[id].hand.Some? ==>
      var sig := s.calls[id].hand.value.sig;
      sig < Floor(s.m.mem.cursor) ==> sig < |s.chain| && Covered(wallet, s.chain[sig], s.m.mem.notes)
  }

  /** Nothing is missed below the cursor exactly if the cursor has passed no logs that are still in hand. */
  lemma MissedIffInHand(env: Setting, actions: seq<Action>)
    ensures NoneMissed(env.wallet, Run(env, actions)) <==> NoneInHand(env.wallet, Run(env, actions))
  {
    AlwaysSound(env, actions);
    InHandDecides(env, Run(env, actions));
  }

  lemma InHandDecides(env: Setting, s: Shared)
    requires IsSoundState(env, s)
    ensures NoneMissed(env.wallet, s) <==> NoneInHand(env.wallet, s)
  {
    forall id | id in s.calls && s.calls[id].hand.Some?
      ensures s.calls[id].hand.value.sig in s.got
    {
      assert CallSound(env.wallet, s, s.calls[id]);
    }
    if NoneInHand(env.wallet, s) {
      forall sig | sig in s.got && sig < Floor(s.m.mem.cursor)
        ensures sig < |s.chain| && Covered(env.wallet, s.chain[sig], s.m.mem.notes)
      {
        if sig !in s.m.progress.fetched {
          var id :| HoldsLogs(s, id, sig);
          assert s.calls[id].hand.value.sig == sig;
        }
      }
    }
  }

  lemma RunSnoc(env: Setting, actions: seq<Action>, a: Action)
    ensures Run(env, actions + [a]) == Step(env, Run(env, actions), a)
  {
    assert (actions + [a])[..|actions|] == actions;
  }

  // ----- Where the cursor goes -----

  /** While the cursor is the one a call began with, the call can only move it forward. */
  lemma AloneMovesForward(env: Setting, s: Shared, id: nat)
    requires IsSoundState(env, s) && id in s.calls && Floor(s.m.mem.cursor) == s.calls[id].floor
    ensures var after := Step(env, s, TurnOver(id)).m.mem.cursor;
            s.m.mem.cursor.Some? ==> after.Some? && after.value >= s.m.mem.cursor.value
  {
    if IsThrough(s.calls[id]) {
      assert CallSound(env.wallet, s, s.calls[id]);
      TurnIsSound(s.calls[id], |s.chain|, s.m.progress.scanned);
    }
  }

  /** A call sets the cursor back exactly if its last page is short, it scanned anything, and its range began at or below the cursor. */
  lemma FallsIff(env: Setting, s: Shared, id: nat)
    requires IsSoundState(env, s) && s.m.mem.cursor.Some? && id in s.calls && IsThrough(s.calls[id])
    ensures var c, after := s.calls[id], Step(env, s, TurnOver(id)).m.mem.cursor;
            && after.Some?
            && (after.value < s.m.mem.cursor.value
                <==> (c.page.value == [] || |c.page.value| < c.limit) && c.w.visited + c.page.value != []
                     && c.high <= s.m.mem.cursor.value)
  {
    assert CallSound(env.wallet, s, s.calls[id]);
    TurnIsSound(s.calls[id], |s.chain|, s.m.progress.scanned);
    NewestIff(s.calls[id], |s.chain|, s.m.progress.scanned);
  }

  lemma NewestIff(c: Call, length: nat, scanned: seq<Sig>)
    requires IsSound(c, length, scanned) && IsThrough(c)
    ensures var done := Turn(c.limit, c.page.value, c.w).0;
            && (done.Some? && !done.value.truncated <==> c.page.value == [] || |c.page.value| < c.limit)
            && (done.Some? ==> (done.value.newest.Some? <==> c.w.visited + c.page.value != []))
  {
    if c.w.page > 0 {
      FullMonotone(c.limit, 1, c.w.page);
      assert Full(c.limit, 1) == Full(c.limit, 0) + c.limit;
    }
  }

  const BEFORE_FIRST_PAGE := Walk(0, None, None, [])

  /** A call that has its first page. */
  function Paged(high: nat, page: seq<Sig>, done: nat, hand: Option<Hand>): Call {
    Call(0, 30, None, high, BEFORE_FIRST_PAGE, Some(page), done, hand)
  }

  /** A call that began from the cursor at position 0 and found nothing newer in a history of one. */
  const NOTHING_NEW := Call(1, 30, None, 1, BEFORE_FIRST_PAGE, Some([]), 0, None)

  /** Two calls over a history of two: the one that began later ends first, and the other sets the cursor back. */
  lemma CursorCanFall(env: Setting, a: Tx, b: Tx) returns (before: seq<Action>, last: Action)
    requires a.failed && b.failed
    ensures Run(env, before).m.mem.cursor == Some(1)
    ensures Run(env, before + [last]).m.mem.cursor == Some(0)
  {
    before := FirstBegins(env, a);
    before := SecondBegins(env, a, b, before);
    before := SecondEnds(env, a, b, before);
    before, last := FirstEnds(env, a, b, before);
  }

  lemma FirstEnds(env: Setting, a: Tx, b: Tx, earlier: seq<Action>) returns (before: seq<Action>, last: Action)
    requires a.failed && b.failed
    requires var s := Run(env, earlier);
             s.chain == [a, b] && s.m.mem.cursor == Some(1) && s.calls == map[0 := Paged(1, [0], 0, None)]
    ensures Run(env, before).m.mem.cursor == Some(1)
    ensures Run(env, before + [last]).m.mem.cursor == Some(0)
  {
    RunSnoc(env, earlier, Fetch(0));
    before := earlier + [Fetch(0)];
    assert Run(env, before).calls[0] == Paged(1, [0], 1, None);
    last := TurnOver(0);
    RunSnoc(env, before, last);
  }

  lemma Starts(env: Setting, before: seq<Action>, id: nat) returns (actions: seq<Action>)
    requires id !in Run(env, before).calls
    ensures var s, floor := Run(env, before), Floor(Run(env, before).m.mem.cursor);
            Run(env, actions) == s.(calls := s.calls[id := Answered(Started(floor, 30, None), |s.chain|)])
  {
    var s := Run(env, before);
    RunSnoc(env, before, Begin(id, 30, None, false));
    actions := before + [Begin(id, 30, None, false)];
    var started := Started(Floor(s.m.mem.cursor), 30, None);
    assert Run(env, actions) == s.(calls := s.calls[id := started]);
    RunSnoc(env, actions, Answer(id));
    actions := actions + [Answer(id)];
    assert s.calls[id := started][id := Answered(started, |s.chain|)] == s.calls[id := Answered(started, |s.chain|)];
  }

  lemma FirstBegins(env: Setting, a: Tx) returns (actions: seq<Action>)
    ensures Run(env, actions) == Shared([a], INITIAL.m, [], map[0 := Paged(1, [0], 0, None)])
  {
    RunSnoc(env, [], Arrive([a]));
    actions := [] + [Arrive([a])];
    actions := Starts(env, actions, 0);
    assert Page(1, 0, 30) == [0];
  }

  lemma SecondBegins(env: Setting, a: Tx, b: Tx, before: seq<Action>) returns (actions: seq<Action>)
    requires Run(env, before) == Shared([a], INITIAL.m, [], map[0 := Paged(1, [0], 0, None)])
    ensures Run(env, actions) == Shared([a, b], INITIAL.m, [], map[0 := Paged(1, [0], 0, None), 1 := Paged(2, [1, 0], 0, None)])
  {
    RunSnoc(env, before, Arrive([b]));
    actions := before + [Arrive([b])];
    actions := Starts(env, actions, 1);
    assert Page(2, 0, 30) == [1, 0];
  }

  lemma SecondEnds(env: Setting, a: Tx, b: Tx, before: seq<Action>) returns (actions: seq<Action>)
    requires a.failed && b.failed
    requires Run(env, before) == Shared([a, b], INITIAL.m, [], map[0 := Paged(1, [0], 0, None), 1 := Paged(2, [1, 0], 0, None)])
    ensures var s := Run(env, actions);
            s.chain == [a, b] && s.m.mem.cursor == Some(1) && s.calls == map[0 := Paged(1, [0], 0, None)]
  {
    RunSnoc(env, before, Fetch(1));
    actions := before + [Fetch(1)];
    assert Run(env, actions).calls == map[0 := Paged(1, [0], 0, None), 1 := Paged(2, [1, 0], 1, None)];
    RunSnoc(env, actions, Fetch(1));
    actions := actions + [Fetch(1)];
    assert Run(env, actions).calls == map[0 := Paged(1, [0], 0, None), 1 := Paged(2, [1, 0], 2, None)];
    RunSnoc(env, actions, TurnOver(1));
    actions := actions + [TurnOver(1)];
  }

  /** The first fetch comes back with logs, every other is rejected, and every write succeeds. */
  function FirstReads(wallet: Wallet): Setting {
    Setting(wallet, true, n => if n == 0 then Logs else Rejected, _ => true)
  }

  /**
   A loss that only overlapping calls can cause: one call has the logs of a transaction in hand, another's
   fetch of it is rejected, and the other moves the cursor past it. After a crash the wallet's note is
   gone, and no backfill from the cursor comes to it again.
   */
  lemma LogsInHandCanBeLost(wallet: Wallet, e: Event) returns (actions: seq<Action>)
    requires wallet.Claim(e).Some?
    ensures var s := Run(FirstReads(wallet), actions);
            && s.chain == [Tx(false, [e])] && s.got == [0] && s.m.mem == Memory([], {}, Some(0))
            && !NoneMissed(wallet, s)
    ensures var t := Run(FirstReads(wallet), actions + [Restart]);
            t.chain == [Tx(false, [e])] && t.m.mem == Memory([], {}, Some(0))
    ensures Run(FirstReads(wallet), actions + [Restart] + [Begin(0, 30, None, false)] + [Answer(0)]).calls == map[0 := NOTHING_NEW]
  {
    var env := FirstReads(wallet);
    actions := FirstTakesLogs(wallet, e);
    actions := SecondPasses(wallet, e, actions);
    var s := Run(env, actions);
    assert 0 in s.got && e in s.chain[0].events && !Has(s.m.mem.notes, ToDecimal(e.commitment));
    AfterCrash(env, actions);
    FindsNothing(env, actions + [Restart]);
  }

  lemma SecondPasses(wallet: Wallet, e: Event, before: seq<Action>) returns (actions: seq<Action>)
    requires Run(FirstReads(wallet), before)
             == Shared([Tx(false, [e])], Moment(EMPTY, Progress([0], [], []), 1, 0, []), [0],
                       map[0 := Paged(1, [0], 0, Some(Hand(0, 0, false)))])
    ensures var s := Run(FirstReads(wallet), actions);
            && s.chain == [Tx(false, [e])] && s.got == [0] && s.m.mem == Memory([], {}, Some(0))
            && s.m.journal != [] && s.m.journal[|s.m.journal| - 1].mem == s.m.mem
  {
    var env := FirstReads(wallet);
    actions := Starts(env, before, 1);
    assert Page(1, 0, 30) == [0];
    assert Run(env, actions).calls[1] == Paged(1, [0], 0, None);
    RunSnoc(env, actions, Fetch(1));
    actions := actions + [Fetch(1)];
    assert Run(env, actions).calls[1] == Paged(1, [0], 1, None);
    RunSnoc(env, actions, TurnOver(1));
    actions := actions + [TurnOver(1)];
  }

  lemma FirstTakesLogs(wallet: Wallet, e: Event) returns (actions: seq<Action>)
    ensures Run(FirstReads(wallet), actions)
            == Shared([Tx(false, [e])], Moment(EMPTY, Progress([0], [], []), 1, 0, []), [0],
                      map[0 := Paged(1, [0], 0, Some(Hand(0, 0, false)))])
  {
    actions := FirstBegins(FirstReads(wallet), Tx(false, [e]));
    RunSnoc(FirstReads(wallet), actions, Fetch(0));
    actions := actions + [Fetch(0)];
  }

  lemma RestoresLast(env: Setting, s: Shared)
    requires env.persists && s.m.journal != [] && WellKeyed(s.m.journal[|s.m.journal| - 1].mem.notes)
    ensures Restarted(env, s).m.mem == s.m.journal[|s.m.journal| - 1].mem
    ensures Restarted(env, s).chain == s.chain && Restarted(env, s).calls == map[]
  {
    HydrateSnapshot(s.m.journal[|s.m.journal| - 1].mem);
  }

  lemma CrashOf(env: Setting, s: Shared, mem: Memory)
    requires env.persists && s.m.journal != [] && s.m.journal[|s.m.journal| - 1].mem == mem && WellKeyed(mem.notes)
    ensures var t := Step(env, s, Restart); t.chain == s.chain && t.m.mem == mem && t.calls == map[]
  {
    RestoresLast(env, s);
  }

  lemma AfterCrash(env: Setting, actions: seq<Action>)
    requires var s := Run(env, actions);
             && env.persists && |s.chain| == 1 && s.m.journal != []
             && s.m.journal[|s.m.journal| - 1].mem == Memory([], {}, Some(0))
    ensures var t := Run(env, actions + [Restart]);
            t.chain == Run(env, actions).chain && t.m.mem == Memory([], {}, Some(0)) && t.calls == map[]
  {
    RunSnoc(env, actions, Restart);
    CrashOf(env, Run(env, actions), Memory([], {}, Some(0)));
  }

  lemma FindsNothing(env: Setting, actions: seq<Action>)
    requires var s := Run(env, actions); |s.chain| == 1 && s.m.mem.cursor == Some(0) && s.calls == map[]
    ensures Run(env, actions + [Begin(0, 30, None, false)] + [Answer(0)]).calls == map[0 := NOTHING_NEW]
  {
    RunSnoc(env, actions, Begin(0, 30, None, false));
    RunSnoc(env, actions + [Begin(0, 30, None, false)], Answer(0));
    assert Page(1, 1, 30) == [];
  }
}
