/**
 packages/sdk/src/note-store.ts: a backfill call that nothing interrupts. Its steps, one after the other,
 come to what the call as a whole does.
 */
module Alone {
  import opened NoteData
  import opened Overlap
  import opened Paging
  import opened Scanning
  import opened TextCodec
  import opened Wrappers

  /** Some actions, from a state on. */
  function After(env: Setting, s: Shared, actions: seq<Action>): Shared {
    if actions == [] then s else Step(env, After(env, s, actions[..|actions| - 1]), actions[|actions| - 1])
  }

  lemma AfterSnoc(env: Setting, s: Shared, actions: seq<Action>, a: Action)
    ensures After(env, s, actions + [a]) == Step(env, After(env, s, actions), a)
  {
    assert (actions + [a])[..|actions|] == actions;
  }

  lemma {:induction false} AfterConcat(env: Setting, s: Shared, a: seq<Action>, b: seq<Action>)
    ensures After(env, s, a + b) == After(env, After(env, s, a), b)
  {
    if b == [] {
      assert a + b == a;
    } else {
      assert (a + b)[..|a + b| - 1] == a + b[..|b| - 1];
      AfterConcat(env, s, a, b[..|b| - 1]);
    }
  }

  /** The call is as given, and everything else as in s but for the moment and what came back with logs. */
  ghost predicate Stands(s: Shared, t: Shared, id: nat, c: Call, m: Moment) {
    match t
    case Shared(chain, now, _, calls) => chain == s.chain && now == m && calls == s.calls[id := c]
  }

  // ----- One transaction -----

  /** Looks at one event, and decrypts it unless it is held already. */
  lemma TakesOne(env: Setting, s: Shared, id: nat, c: Call, sig: Sig, n: nat) returns (actions: seq<Action>)
    requires id in s.calls && s.calls[id] == c && c.hand == Some(Hand(sig, n, false))
    requires sig < |s.chain| && n < |s.chain[sig].events|
    ensures Stands(s, After(env, s, actions), id, c.(hand := Some(Hand(sig, n + 1, false))), Take(env, s.m, s.chain[sig].events[n]))
  {
    var e := s.chain[sig].events[n];
    AfterSnoc(env, s, [], Look(id));
    actions := [] + [Look(id)];
    if !Has(s.m.mem.notes, ToDecimal(e.commitment)) {
      var t := After(env, s, actions);
      assert t == WithHand(s, id, n, true);
      AfterSnoc(env, s, actions, Decrypt(id));
      actions := actions + [Decrypt(id)];
    }
  }

  lemma TakeNext(env: Setting, m: Moment, events: seq<Event>, n: nat)
    requires n < |events|
    ensures TakeAll(env, m, events[..n + 1]) == Take(env, TakeAll(env, m, events[..n]), events[n])
  {
    assert events[..n + 1][..n] == events[..n];
  }

  /** The first n events of the logs in hand. */
  lemma {:induction false} TakesFirst(env: Setting, s: Shared, id: nat, c: Call, sig: Sig, n: nat) returns (actions: seq<Action>)
    requires id in s.calls && s.calls[id] == c && c.hand == Some(Hand(sig, 0, false))
    requires sig < |s.chain| && n <= |s.chain[sig].events|
    ensures Stands(s, After(env, s, actions), id, c.(hand := Some(Hand(sig, n, false))), TakeAll(env, s.m, s.chain[sig].events[..n]))
  {
    if n == 0 {
      actions := [];
      assert s.calls[id := c] == s.calls;
    } else {
      actions := TakesFirst(env, s, id, c, sig, n - 1);
      var t := After(env, s, actions);
      var more := TakesOne(env, t, id, c.(hand := Some(Hand(sig, n - 1, false))), sig, n - 1);
      AfterConcat(env, s, actions, more);
      TakeNext(env, s.m, s.chain[sig].events, n - 1);
      actions := actions + more;
    }
  }

  /** All events of the logs in hand, and their end. */
  lemma TakesLogs(env: Setting, s: Shared, id: nat, c: Call, sig: Sig) returns (actions: seq<Action>)
    requires id in s.calls && s.calls[id] == c && c.hand == Some(Hand(sig, 0, false)) && sig < |s.chain|
    ensures Stands(s, After(env, s, actions), id, c.(hand := None, done := c.done + 1),
                   Fetched(TakeAll(env, s.m, s.chain[sig].events), sig))
  {
    var events := s.chain[sig].events;
    actions := TakesFirst(env, s, id, c, sig, |events|);
    assert events[..|events|] == events;
    AfterSnoc(env, s, actions, Finish(id));
    actions := actions + [Finish(id)];
  }

  lemma FetchesLogs(env: Setting, s: Shared, id: nat, c: Call, sig: Sig)
    requires id in s.calls && s.calls[id] == c && IsFetching(c) && sig == c.page.value[c.done]
    requires IsTried(s.chain, sig) && env.outcome(s.m.fetches) == Logs
    ensures Stands(s, After(env, s, [] + [Fetch(id)]), id, c.(hand := Some(Hand(sig, 0, false))), Seen(s.m, sig, s.m.fetches + 1))
  {
    AfterSnoc(env, s, [], Fetch(id));
  }

  lemma FetchesNone(env: Setting, s: Shared, id: nat, c: Call, sig: Sig)
    requires id in s.calls && s.calls[id] == c && IsFetching(c) && sig == c.page.value[c.done]
    requires !IsTried(s.chain, sig) || env.outcome(s.m.fetches) != Logs
    ensures Stands(s, After(env, s, [] + [Fetch(id)]), id, c.(done := c.done + 1), Scan(env, s.chain, s.m, sig))
  {
    AfterSnoc(env, s, [], Fetch(id));
  }

  /** One signature of a page: exactly its scan. */
  lemma ScansOne(env: Setting, s: Shared, id: nat, c: Call) returns (actions: seq<Action>)
    requires id in s.calls && s.calls[id] == c && IsFetching(c)
    ensures Stands(s, After(env, s, actions), id, c.(done := c.done + 1), Scan(env, s.chain, s.m, c.page.value[c.done]))
  {
    var sig := c.page.value[c.done];
    actions := [] + [Fetch(id)];
    if IsTried(s.chain, sig) && env.outcome(s.m.fetches) == Logs {
      FetchesLogs(env, s, id, c, sig);
      var more := TakesLogs(env, After(env, s, actions), id, c.(hand := Some(Hand(sig, 0, false))), sig);
      AfterConcat(env, s, actions, more);
      actions := actions + more;
    } else {
      FetchesNone(env, s, id, c, sig);
    }
  }

  // ----- One page -----

  lemma ScanNextOf(env: Setting, chain: seq<Tx>, m: Moment, page: seq<Sig>, n: nat)
    requires n < |page|
    ensures ScanAll(env, chain, m, page[..n + 1]) == Scan(env, chain, ScanAll(env, chain, m, page[..n]), page[n])
  {
    assert page[..n + 1][..n] == page[..n];
  }

  /** The first n signatures of a page. */
  lemma {:induction false} ScansFirst(env: Setting, s: Shared, id: nat, c: Call, page: seq<Sig>, n: nat) returns (actions: seq<Action>)
    requires id in s.calls && s.calls[id] == c && c.page == Some(page) && c.hand.None? && c.done == 0 && n <= |page|
    ensures Stands(s, After(env, s, actions), id, c.(done := n), ScanAll(env, s.chain, s.m, page[..n]))
  {
    if n == 0 {
      actions := [];
      assert s.calls[id := c] == s.calls;
    } else {
      actions := ScansFirst(env, s, id, c, page, n - 1);
      var t := After(env, s, actions);
      var more := ScansOne(env, t, id, c.(done := n - 1));
      AfterConcat(env, s, actions, more);
      ScanNextOf(env, s.chain, s.m, page, n - 1);
      actions := actions + more;
    }
  }

  /** A whole page: answered, and then exactly the scan of its signatures. */
  lemma ScansPage(env: Setting, s: Shared, id: nat, c: Call, page: seq<Sig>) returns (actions: seq<Action>)
    requires id in s.calls && s.calls[id] == c && c.page.None? && c.hand.None?
    requires Answered(c, |s.chain|).page == Some(page)
    ensures Stands(s, After(env, s, actions), id, Answered(c, |s.chain|).(done := |page|), ScanAll(env, s.chain, s.m, page))
  {
    AfterSnoc(env, s, [], Answer(id));
    actions := [] + [Answer(id)];
    var t, answered := After(env, s, actions), Answered(c, |s.chain|);
    assert Stands(s, t, id, answered, s.m);
    var more := ScansFirst(env, t, id, answered, page, |page|);
    assert page[..|page|] == page;
    AfterConcat(env, s, actions, more);
    actions := actions + more;
  }

  // ----- The whole call -----

  /** The call is over: everything else stands, and its walk ended as a walk does. */
  ghost predicate IsOver(env: Setting, s: Shared, t: Shared, id: nat, c: Call, high: nat, end: Ending, visited: seq<Sig>) {
    match t
    case Shared(chain, now, _, calls) =>
      && chain == s.chain && calls == s.calls - {id} && now == Ended(env, ScanAll(env, s.chain, s.m, visited), end)
      && WalkEnds(high, c.floor, c.limit, end.newest, c.w.visited + visited, end.truncated)
  }

  /** Between two pages: the call has none in hand, and its walk has come from high. */
  ghost predicate Between(s: Shared, id: nat, c: Call, high: nat) {
    && id in s.calls && s.calls[id] == c && c.page.None? && c.hand.None? && c.done == 0 && c.w.page < MAX_PAGES
    && WalkAt(high, c.floor, c.limit, c.before, c.w) && high <= |s.chain|
    && if c.w.page == 0 then Top(|s.chain|, c.before) == high else c.high == high
  }

  lemma PageIsDown(s: Shared, id: nat, c: Call, high: nat) returns (page: seq<Sig>, until: Option<Sig>)
    requires Between(s, id, c, high)
    ensures Answered(c, |s.chain|) == c.(high := high, page := Some(page), done := 0)
    ensures Floor(until) == c.floor && IsDown(page, high - |c.w.visited|, PageSize(high - |c.w.visited|, c.floor, c.limit))
  {
    until := UntilOf(c.floor);
    PageFollows(high, until, c.limit, c.before, c.w, |s.chain|);
    page := Answered(c, |s.chain|).page.value;
  }

  /** A page that is through is turned. */
  lemma TurnsPage(env: Setting, s: Shared, id: nat, c: Call, high: nat) returns (actions: seq<Action>, page: seq<Sig>, d: Call)
    requires Between(s, id, c, high)
    ensures IsDown(page, high - |c.w.visited|, PageSize(high - |c.w.visited|, c.floor, c.limit))
    ensures var (done, next) := Turn(c.limit, page, c.w);
            && next.visited == c.w.visited + page && d == c.(high := high, w := next, page := None, done := 0)
            && (done.None? ==>
                  && d.w.page == c.w.page + 1 && Between(After(env, s, actions), id, d, high)
                  && Stands(s, After(env, s, actions), id, d, ScanAll(env, s.chain, s.m, page)))
            && (done.Some? ==> IsOver(env, s, After(env, s, actions), id, c, high, done.value, page))
  {
    var until;
    page, until := PageIsDown(s, id, c, high);
    actions := ScansPage(env, s, id, c, page);
    TurnWalks(high, until, c.limit, c.before, c.w, page);
    d := c.(high := high, w := Turn(c.limit, page, c.w).1, page := None, done := 0);
    AfterSnoc(env, s, actions, TurnOver(id));
    TurnStep(env, s, After(env, s, actions), id, c.(high := high, page := Some(page), done := |page|), ScanAll(env, s.chain, s.m, page));
    actions := actions + [TurnOver(id)];
  }

  lemma TurnStep(env: Setting, s: Shared, t: Shared, id: nat, c: Call, m: Moment)
    requires Stands(s, t, id, c, m) && IsThrough(c)
    ensures var (done, next) := Turn(c.limit, c.page.value, c.w);
            var u := Step(env, t, TurnOver(id));
            && u.chain == s.chain
            && (done.None? ==> Stands(s, u, id, c.(w := next, page := None, done := 0), m))
            && (done.Some? ==> u.calls == s.calls - {id} && u.m == Ended(env, m, done.value))
  {
    assert s.calls[id := c] - {id} == s.calls - {id};
  }

  /** From between two pages to the end of the walk. */
  lemma {:induction false} Completes(env: Setting, s: Shared, id: nat, c: Call, high: nat)
    returns (actions: seq<Action>, end: Ending, visited: seq<Sig>)
    requires Between(s, id, c, high)
    ensures IsOver(env, s, After(env, s, actions), id, c, high, end, visited)
    decreases MAX_PAGES - c.w.page
  {
    var page, d;
    actions, page, d := TurnsPage(env, s, id, c, high);
    var done := Turn(c.limit, page, c.w).0;
    if done.Some? {
      end, visited := done.value, page;
    } else {
      var t := After(env, s, actions);
      var more, rest;
      more, end, rest := Completes(env, t, id, d, high);
      AfterConcat(env, s, actions, more);
      ScanAllConcat(env, s.chain, s.m, page, rest);
      ConcatAssoc(c.w.visited, page, rest);
      assert s.calls[id := d] - {id} == s.calls - {id};
      actions, visited := actions + more, page + rest;
    }
  }

  lemma Begins(env: Setting, s: Shared, id: nat, limit: nat, before: Option<Sig>, genesis: bool, cursor: Option<Sig>)
    returns (t: Shared, c: Call)
    requires id !in s.calls && cursor == if genesis then None else s.m.mem.cursor
    ensures t == After(env, s, [Begin(id, limit, before, genesis)])
    ensures t.chain == s.chain && t.m == s.m.(mem := s.m.mem.(cursor := cursor)) && t.calls - {id} == s.calls
    ensures c == Started(Floor(cursor), limit, before) && Between(t, id, c, Top(|s.chain|, before))
  {
    c := Started(Floor(cursor), limit, before);
    AfterSnoc(env, s, [], Begin(id, limit, before, genesis));
    assert [] + [Begin(id, limit, before, genesis)] == [Begin(id, limit, before, genesis)];
    t := After(env, s, [Begin(id, limit, before, genesis)]);
    assert s.calls[id := c] - {id} == s.calls;
  }

  /**
   A call that nothing interrupts and that no rejection ends does what backfill as a whole does: it scans
   exactly the walk from the head or from before, and moves the cursor if the walk was not cut short.
   */
  lemma AloneIsBackfill(env: Setting, s: Shared, id: nat, limit: nat, before: Option<Sig>, genesis: bool)
    returns (actions: seq<Action>, visited: seq<Sig>, truncated: bool)
    requires id !in s.calls
    ensures var cursor := if genesis then None else s.m.mem.cursor;
            var high, start, t := Top(|s.chain|, before), s.m.(mem := s.m.mem.(cursor := cursor)), After(env, s, actions);
            && actions != [] && actions[0] == Begin(id, limit, before, genesis)
            && t.chain == s.chain && t.calls == s.calls
            && WalkEnds(high, Floor(cursor), limit, if visited == [] then None else Below(high), visited, truncated)
            && t.m == Moved(env, ScanAll(env, s.chain, start, visited), if visited != [] && !truncated then Below(high) else None)
  {
    var cursor := if genesis then None else s.m.mem.cursor;
    var high := Top(|s.chain|, before);
    var begun := [Begin(id, limit, before, genesis)];
    var t, c := Begins(env, s, id, limit, before, genesis, cursor);
    var more, end;
    more, end, visited := Completes(env, t, id, c, high);
    AfterConcat(env, s, begun, more);
    actions, truncated := begun + more, end.truncated;
    assert [] + visited == visited;
    ScanAllIs(env, s.chain, t.m, visited);
  }

  // ----- A call that is rejected -----

  /** A full page that is not the tenth is followed by another one. */
  lemma GoesOn(high: nat, c: Call, page: seq<Sig>, pages: nat)
    requires WalkAt(high, c.floor, c.limit, c.before, c.w) && c.w.page < pages < MAX_PAGES
    requires IsDown(page, high - |c.w.visited|, PageSize(high - |c.w.visited|, c.floor, c.limit))
    requires c.limit > 0 && c.floor + Full(c.limit, pages) <= high
    ensures Turn(c.limit, page, c.w).0 == None
  {
    FullMonotone(c.limit, c.w.page + 1, pages);
  }

  /** From between two pages on to where a number of full pages is through. */
  lemma {:induction false} Reaches(env: Setting, s: Shared, id: nat, c: Call, high: nat, pages: nat)
    returns (actions: seq<Action>, visited: seq<Sig>, d: Call)
    requires Between(s, id, c, high) && c.w.page <= pages < MAX_PAGES
    requires c.w.page < pages ==> c.limit > 0 && c.floor + Full(c.limit, pages) <= high
    ensures Stands(s, After(env, s, actions), id, d, ScanAll(env, s.chain, s.m, visited))
    ensures Between(After(env, s, actions), id, d, high)
    ensures d.w.page == pages && d.w.visited == c.w.visited + visited && d.limit == c.limit
    decreases pages - c.w.page
  {
    if c.w.page == pages {
      actions, visited, d := [], [], c;
      assert s.calls[id := c] == s.calls && c.w.visited + [] == c.w.visited;
    } else {
      var page, turned, more, rest;
      actions, page, turned := TurnsPage(env, s, id, c, high);
      GoesOn(high, c, page, pages);
      more, rest, d := Reaches(env, After(env, s, actions), id, turned, high, pages);
      AfterConcat(env, s, actions, more);
      ScanAllConcat(env, s.chain, s.m, page, rest);
      ConcatAssoc(c.w.visited, page, rest);
      actions, visited := actions + more, page + rest;
    }
  }

  lemma Rejects(env: Setting, s: Shared, t: Shared, id: nat, c: Call, m: Moment)
    requires Stands(s, t, id, c, m) && c.page.None?
    ensures var u := Step(env, t, Reject(id)); u.chain == s.chain && u.m == m && u.calls == s.calls - {id}
  {
    assert s.calls[id := c] - {id} == s.calls - {id};
  }

  /**
   A call that nothing interrupts until, after some full pages, it is rejected: it has scanned those pages,
   and the cursor stands where the call found it, or nowhere with genesis.
   */
  lemma AloneRejected(env: Setting, s: Shared, id: nat, limit: nat, before: Option<Sig>, genesis: bool, pages: nat)
    returns (actions: seq<Action>, visited: seq<Sig>)
    requires id !in s.calls && pages < MAX_PAGES
    requires pages > 0 ==> limit > 0
    requires pages > 0 ==> Floor(if genesis then None else s.m.mem.cursor) + Full(limit, pages) <= Top(|s.chain|, before)
    ensures var cursor := if genesis then None else s.m.mem.cursor;
            var start, t := s.m.(mem := s.m.mem.(cursor := cursor)), After(env, s, actions + [Reject(id)]);
            && actions != [] && actions[0] == Begin(id, limit, before, genesis)
            && t.chain == s.chain && t.calls == s.calls
            && IsDown(visited, Top(|s.chain|, before), Full(limit, pages))
            && t.m == ScanAll(env, s.chain, start, visited)
            && t.m.mem.cursor == cursor
  {
    var cursor := if genesis then None else s.m.mem.cursor;
    var begun := [Begin(id, limit, before, genesis)];
    var t, c := Begins(env, s, id, limit, before, genesis, cursor);
    var more, d;
    more, visited, d := Reaches(env, t, id, c, Top(|s.chain|, before), pages);
    AfterConcat(env, s, begun, more);
    actions := begun + more;
    AfterSnoc(env, s, actions, Reject(id));
    Rejects(env, t, After(env, s, actions), id, d, ScanAll(env, s.chain, t.m, visited));
    assert [] + visited == visited;
    ScanAllIs(env, s.chain, t.m, visited);
  }
}
