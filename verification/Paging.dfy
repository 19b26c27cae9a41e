/** packages/sdk/src/note-store.ts: which signatures the paging loop of backfill asks for and keeps. */
module Paging {
  import opened NoteData
  import opened Wrappers

  const MAX_PAGES: nat := 10

  /** d is count positions downwards, starting just below high. */
  ghost predicate IsDown(d: seq<Sig>, high: nat, count: nat) {
    && |d| == count <= high
    && forall i {:trigger d[i]} :: 0 <= i < count ==> d[i] == high - 1 - i
  }

  /** Where a page starts: strictly older than before, in a history of the given length. */
  function Top(length: nat, before: Option<Sig>): nat {
    if before.Some? && before.value < length then before.value else length
  }

  /** Where a page ends: strictly newer than until. */
  function Floor(until: Option<Sig>): nat {
    if until.Some? then until.value + 1 else 0
  }

  /** How many signatures one page holds. */
  function PageSize(top: nat, floor: nat, limit: nat): (n: nat)
    ensures n <= top
  {
    if top <= floor then 0 else if top - floor < limit then top - floor else limit
  }

  /** What a number of full pages hold. */
  function Full(limit: nat, pages: nat): nat {
    if pages == 0 then 0 else Full(limit, pages - 1) + limit
  }

  lemma {:induction false} FullMonotone(limit: nat, a: nat, b: nat)
    requires a <= b
    ensures Full(limit, a) <= Full(limit, b)
    decreases b
  {
    if a < b {
      FullMonotone(limit, a, b - 1);
    }
  }

  /** Ten full pages fit into the range. */
  predicate IsCutShort(high: nat, floor: nat, limit: nat) {
    limit > 0 && high - floor >= Full(limit, MAX_PAGES)
  }

  /** How many signatures of the range one call scans: all of them, or ten full pages. */
  function Extent(high: nat, floor: nat, limit: nat): nat {
    if high <= floor || limit == 0 then 0
    else if IsCutShort(high, floor, limit) then Full(limit, MAX_PAGES)
    else high - floor
  }

  lemma DownConcat(c: seq<Sig>, d: seq<Sig>, high: nat, a: nat, b: nat)
    requires IsDown(c, high, a) && IsDown(d, high - a, b)
    ensures IsDown(c + d, high, a + b)
  {
  }

  /** The position just below high, if there is one. */
  function Below(high: nat): Option<Sig> {
    if high == 0 then None else Some(high - 1)
  }

  /** Where a walk stands after some full pages. */
  datatype Walk = Walk(page: nat, older: Option<Sig>, newest: Option<Sig>, visited: seq<Sig>)

  ghost predicate WalkAt(high: nat, floor: nat, limit: nat, before: Option<Sig>, w: Walk) {
    if w.page == 0 then
      w.visited == [] && w.older == before && w.newest == None
    else
      && limit > 0 && floor + Full(limit, w.page) <= high
      && IsDown(w.visited, high, Full(limit, w.page))
      && w.older == Some(high - Full(limit, w.page))
      && w.newest == Below(high)
  }

  /** Where a walk ends. */
  ghost predicate WalkEnds(high: nat, floor: nat, limit: nat, newest: Option<Sig>, visited: seq<Sig>, truncated: bool) {
    && IsDown(visited, high, Extent(high, floor, limit))
    && newest == (if visited == [] then None else Below(high))
    && (truncated <==> IsCutShort(high, floor, limit))
  }

  lemma {:induction false} FullIsProduct(limit: nat, pages: nat)
    ensures Full(limit, pages) == limit * pages
  {
    if pages > 0 {
      FullIsProduct(limit, pages - 1);
    }
  }

  lemma CutShortIff(high: nat, floor: nat, limit: nat)
    ensures IsCutShort(high, floor, limit) <==> limit > 0 && high - floor >= 10 * limit
  {
    FullIsProduct(limit, MAX_PAGES);
  }

  predicate IsPages(visited: seq<Sig>, limit: nat, pages: nat) {
    |visited| == Full(limit, pages)
  }

  /** Where a walk stands when a call is rejected: after some full pages, fewer than ten. */
  ghost predicate WalkStops(high: nat, floor: nat, limit: nat, visited: seq<Sig>) {
    && IsDown(visited, high, |visited|) && |visited| <= Extent(high, floor, limit)
    && exists pages {:trigger IsPages(visited, limit, pages)} :: 0 <= pages < MAX_PAGES && IsPages(visited, limit, pages)
  }

  ghost predicate WalkGoes(rejected: bool, high: nat, floor: nat, limit: nat, newest: Option<Sig>, visited: seq<Sig>, truncated: bool) {
    if rejected then WalkStops(high, floor, limit, visited) else WalkEnds(high, floor, limit, newest, visited, truncated)
  }

  lemma StoppedHere(high: nat, floor: nat, limit: nat, before: Option<Sig>, w: Walk)
    requires WalkAt(high, floor, limit, before, w) && w.page < MAX_PAGES
    ensures WalkStops(high, floor, limit, w.visited) && IsPages(w.visited, limit, w.page)
  {
    assert IsPages(w.visited, limit, w.page);
    FullMonotone(limit, w.page, MAX_PAGES);
  }

  /** A walk that scanned anything began above the cursor it was given, so moving the cursor moves it forward. */
  lemma CursorMovesForward(high: nat, cursor: Option<Sig>, limit: nat, newest: Option<Sig>, visited: seq<Sig>, truncated: bool)
    requires WalkEnds(high, Floor(cursor), limit, newest, visited, truncated) && visited != []
    ensures newest.Some? && newest.value == visited[0]
    ensures cursor.Some? ==> newest.value > cursor.value
    ensures forall s :: s in visited <==> s < high && s >= high - |visited|
    ensures !truncated ==> forall s: nat :: s in visited <==> Floor(cursor) <= s < high
    ensures forall i, j :: 0 <= i < j < |visited| ==> visited[j] < visited[i]
  {
    forall s: nat | high - |visited| <= s < high
      ensures s in visited
    {
      assert visited[high - 1 - s] == s;
    }
  }

  lemma PageFollows(high: nat, until: Option<Sig>, limit: nat, before: Option<Sig>, w: Walk, length: nat)
    requires WalkAt(high, Floor(until), limit, before, w)
    requires high <= length && (w.page == 0 ==> Top(length, before) == high)
    ensures Top(length, w.older) == high - |w.visited|
  {
  }

  /** A page that is short ends the walk. */
  lemma LastPage(high: nat, until: Option<Sig>, limit: nat, before: Option<Sig>, w: Walk, sigs: seq<Sig>)
    requires WalkAt(high, Floor(until), limit, before, w) && w.page < MAX_PAGES
    requires IsDown(sigs, high - |w.visited|, PageSize(high - |w.visited|, Floor(until), limit))
    requires sigs == [] || |sigs| < limit
    ensures WalkEnds(high, Floor(until), limit, if w.page == 0 && sigs != [] then Some(sigs[0]) else w.newest,
                     w.visited + sigs, false)
  {
    FullMonotone(limit, w.page + 1, MAX_PAGES);
    DownConcat(w.visited, sigs, high, |w.visited|, |sigs|);
    assert w.visited + [] == w.visited;
  }

  /** After a full page the walk goes on below it, or is cut short. */
  lemma FullPage(high: nat, until: Option<Sig>, limit: nat, before: Option<Sig>, w: Walk, sigs: seq<Sig>)
    requires WalkAt(high, Floor(until), limit, before, w) && w.page < MAX_PAGES
    requires IsDown(sigs, high - |w.visited|, PageSize(high - |w.visited|, Floor(until), limit))
    requires sigs != [] && |sigs| >= limit
    ensures var newest := if w.page == 0 then Some(sigs[0]) else w.newest;
            if w.page + 1 < MAX_PAGES then
              WalkAt(high, Floor(until), limit, before, Walk(w.page + 1, Some(sigs[|sigs| - 1]), newest, w.visited + sigs))
            else
              WalkEnds(high, Floor(until), limit, newest, w.visited + sigs, true)
  {
    DownConcat(w.visited, sigs, high, |w.visited|, |sigs|);
  }

  /** How the paging loop ended: the newest signature seen, and whether it ran out of pages or on a rejected call. */
  datatype Ending = Ending(newest: Option<Sig>, truncated: bool, rejected: bool)

  /**
   What the loop of backfill does after a page: keeps the newest signature of the first one, stops after a
   short page and after the tenth, and otherwise goes on below the oldest signature.
   */
  function Turn(limit: nat, sigs: seq<Sig>, w: Walk): (Option<Ending>, Walk) {
    var newest := if |sigs| != 0 && w.page == 0 then Some(sigs[0]) else w.newest;
    var visited := w.visited + sigs;
    if |sigs| == 0 || |sigs| < limit then (Some(Ending(newest, false, false)), Walk(w.page, w.older, newest, visited))
    else if w.page == MAX_PAGES - 1 then (Some(Ending(newest, true, false)), Walk(w.page, w.older, newest, visited))
    else (None, Walk(w.page + 1, Some(sigs[|sigs| - 1]), newest, visited))
  }

  /** Turning the page keeps the walk gapless, and ends it where it should. */
  lemma TurnWalks(high: nat, until: Option<Sig>, limit: nat, before: Option<Sig>, w: Walk, sigs: seq<Sig>)
    requires WalkAt(high, Floor(until), limit, before, w) && w.page < MAX_PAGES
    requires IsDown(sigs, high - |w.visited|, PageSize(high - |w.visited|, Floor(until), limit))
    ensures var (done, next) := Turn(limit, sigs, w);
            && next.visited == w.visited + sigs
            && if done.None? then
                 next.page < MAX_PAGES && WalkAt(high, Floor(until), limit, before, next)
               else
                 && !done.value.rejected
                 && WalkEnds(high, Floor(until), limit, done.value.newest, next.visited, done.value.truncated)
  {
    if |sigs| == 0 || |sigs| < limit {
      LastPage(high, until, limit, before, w, sigs);
    } else {
      FullPage(high, until, limit, before, w, sigs);
    }
  }

  /** After a page, or a rejected call: either the walk goes on, or it ends where it should. */
  ghost predicate Turned(high: nat, until: Option<Sig>, limit: nat, before: Option<Sig>, page: nat, visited: seq<Sig>,
                         sigs: Option<seq<Sig>>, done: Option<Ending>, next: Walk) {
    match done
    case None =>
      && sigs.Some? && next.page == page + 1 < MAX_PAGES && next.visited == visited + sigs.value
      && WalkAt(high, Floor(until), limit, before, next)
    case Some(end) =>
      && end.rejected == sigs.None?
      && (if sigs.Some? then next.visited == visited + sigs.value else next.visited == visited && IsPages(visited, limit, page))
      && WalkGoes(end.rejected, high, Floor(until), limit, end.newest, next.visited, end.truncated)
  }

  method TurnPage(limit: nat, sigs: Option<seq<Sig>>, page: nat, older: Option<Sig>, newest: Option<Sig>,
                  ghost before: Option<Sig>, ghost high: nat, ghost until: Option<Sig>, ghost length: nat, ghost visited: seq<Sig>)
    returns (done: Option<Ending>, older': Option<Sig>, newest': Option<Sig>, ghost visited': seq<Sig>)
    requires page < MAX_PAGES
    requires WalkAt(high, Floor(until), limit, before, Walk(page, older, newest, visited))
    requires high <= length && (page == 0 ==> Top(length, before) == high)
    requires sigs.Some? ==> IsDown(sigs.value, Top(length, older), PageSize(Top(length, older), Floor(until), limit))
    ensures Turned(high, until, limit, before, page, visited, sigs, done, Walk(page + 1, older', newest', visited'))
    ensures sigs.Some? ==>
              Turn(limit, sigs.value, Walk(page, older, newest, visited))
              == (done, Walk(if done.None? then page + 1 else page, older', newest', visited'))
  {
    older', newest', visited' := older, newest, visited;
    ghost var w := Walk(page, older, newest, visited);
    if sigs.None? {
      StoppedHere(high, Floor(until), limit, before, w);
      return Some(Ending(newest, false, true)), older', newest', visited';
    }
    var s := sigs.value;
    PageFollows(high, until, limit, before, w, length);
    TurnWalks(high, until, limit, before, w, s);
    visited' := visited + s;
    if |s| != 0 && page == 0 {
      newest' := Some(s[0]);
    }
    if |s| == 0 || |s| < limit {
      return Some(Ending(newest', false, false)), older', newest', visited';
    }
    if page == MAX_PAGES - 1 {
      return Some(Ending(newest', true, false)), older', newest', visited';
    }
    older' := Some(s[|s| - 1]);
    done := None;
  }
}
