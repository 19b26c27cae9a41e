/** packages/sdk/src/b402.ts: balances, holdings and the polling cursor over the note store. */
module NoteViews {
  import opened NoteData
  import opened TextCodec
  import opened Wrappers

  // ----- Polling for new notes -----

  /** An opaque cursor as a caller may hand it in; the base64 JSON around the two fields is not modelled. */
  datatype Token = NoToken | Malformed | Fields(v: int, l: string)

  function EncodeCursor(leafIndex: int): Token {
    Fields(1, if leafIndex < 0 then "-" + ToDecimal(-leafIndex) else ToDecimal(leafIndex))
  }

  /** Anything that is not a version 1 cursor reads as "from the beginning". */
  function DecodeCursor(t: Token): int {
    if !t.Fields? || t.v != 1 then -1
    else
      var negative := |t.l| > 1 && t.l[0] == '-';
      var n := FromDecimal(if negative then t.l[1..] else t.l);
      if n.None? then -1
      else
        var leafIndex: int := n.value;
        if negative then -leafIndex else leafIndex
  }

  lemma {:induction false} StartsWithDigit(s: string)
    requires FromDecimal(s).Some?
    ensures s != [] ==> CharDigit(s[0]) < 10
  {
    if |s| > 1 {
      StartsWithDigit(s[..|s| - 1]);
    }
  }

  lemma DecodePlain(s: string, n: nat)
    requires FromDecimal(s) == Some(n)
    ensures DecodeCursor(Fields(1, s)) == n
  {
    StartsWithDigit(s);
  }

  lemma DecodeNegative(s: string, n: nat)
    requires s != [] && FromDecimal(s) == Some(n)
    ensures DecodeCursor(Fields(1, "-" + s)) == 0 - n as int
  {
    assert ("-" + s)[0] == '-' && ("-" + s)[1..] == s;
  }

  /** A cursor that comes back unchanged reads as the leaf index it was made from. */
  lemma CursorRoundTrip(leafIndex: int)
    ensures DecodeCursor(EncodeCursor(leafIndex)) == leafIndex
  {
    if leafIndex < 0 {
      DecimalRoundTrip(-leafIndex);
      DecodeNegative(ToDecimal(-leafIndex), -leafIndex);
    } else {
      DecimalRoundTrip(leafIndex);
      DecodePlain(ToDecimal(leafIndex), leafIndex);
    }
  }

  /** A version 1 cursor with the leaf index in decimal; -1 stands for none yet. */
  lemma CursorText(leafIndex: nat)
    ensures EncodeCursor(leafIndex) == Fields(1, ToDecimal(leafIndex))
    ensures EncodeCursor(-1) == Fields(1, "-1")
  {
    DecimalIs(1);
  }

  /** No cursor, a malformed one, one of another version and one without a number read as "from the beginning". */
  lemma OthersReadAsNone(t: Token)
    ensures t == NoToken || t == Malformed ==> DecodeCursor(t) == -1
    ensures t.Fields? && t.v != 1 ==> DecodeCursor(t) == -1
    ensures t.Fields? && FromDecimal(t.l) == None && (t.l != "" ==> t.l[0] != '-') ==> DecodeCursor(t) == -1
  {
  }

  /** The store's notes at the moment of one poll. */
  datatype View = View(notes: seq<Entry>, spent: set<string>)

  function Above(v: View, mint: Option<nat>, since: int): seq<SpendableNote> {
    SortByLeaf(Fresh(v.notes, v.spent, mint, since))
  }

  function MaxLeaf(since: int, notes: seq<SpendableNote>): int {
    if notes == [] then since
    else
      var max, n := MaxLeaf(since, notes[..|notes| - 1]), notes[|notes| - 1];
      if n.leafIndex > max then n.leafIndex else max
  }

  lemma {:induction false} MaxLeafIsHighest(since: int, notes: seq<SpendableNote>)
    ensures MaxLeaf(since, notes) >= since
    ensures forall n :: n in notes ==> n.leafIndex <= MaxLeaf(since, notes)
    ensures MaxLeaf(since, notes) == since || exists n :: n in notes && n.leafIndex == MaxLeaf(since, notes)
  {
    if notes != [] {
      MaxLeafIsHighest(since, notes[..|notes| - 1]);
      assert notes == notes[..|notes| - 1] + [notes[|notes| - 1]];
    }
  }

  /** watchIncoming: the notes above the cursor, and a cursor at the highest of them. */
  method WatchIncoming(v: View, mint: Option<nat>, cursor: Token) returns (incoming: seq<SpendableNote>, next: Token)
    ensures incoming == Above(v, mint, DecodeCursor(cursor))
    ensures DecodeCursor(next) == MaxLeaf(DecodeCursor(cursor), incoming)
  {
    var since := DecodeCursor(cursor);
    incoming := Above(v, mint, since);
    var max := HighestLeaf(since, incoming);
    CursorRoundTrip(max);
    next := EncodeCursor(max);
  }

  method HighestLeaf(since: int, notes: seq<SpendableNote>) returns (max: int)
    ensures max == MaxLeaf(since, notes)
  {
    max := since;
    for i := 0 to |notes|
      invariant max == MaxLeaf(since, notes[..i])
    {
      assert notes[..i + 1][..i] == notes[..i];
      if notes[i].leafIndex > max {
        max := notes[i].leafIndex;
      }
    }
    assert notes[..|notes|] == notes;
  }

  /** What poll number i answers to a cursor. */
  type Feed = (nat, int) -> seq<SpendableNote>

  function StoreFeed(views: seq<View>, mint: Option<nat>): Feed {
    (i: nat, since: int) => if i < |views| then Above(views[i], mint, since) else []
  }

  /** The cursor that poll number i starts from, when each poll passes on the last one's cursor. */
  function CursorAt(feed: Feed, i: nat): int
    decreases i, 0
  {
    if i == 0 then -1 else MaxLeaf(CursorAt(feed, i - 1), Delivered(feed, i - 1))
  }

  /** What poll number i delivers. */
  function Delivered(feed: Feed, i: nat): seq<SpendableNote>
    decreases i, 1
  {
    feed(i, CursorAt(feed, i))
  }

  /** Nothing at or below the cursor is ever answered. */
  ghost predicate StrictlyAbove(feed: Feed) {
    forall i, since, n {:trigger n in feed(i, since)} :: n in feed(i, since) ==> n.leafIndex > since
  }

  lemma StoreFeedAbove(views: seq<View>, mint: Option<nat>)
    ensures StrictlyAbove(StoreFeed(views, mint))
  {
    forall i: nat, since: int, n | n in StoreFeed(views, mint)(i, since)
      ensures n.leafIndex > since
    {
      AboveIff(views[i], mint, since, n);
    }
  }

  lemma AboveIff(v: View, mint: Option<nat>, since: int, n: SpendableNote)
    ensures n in Above(v, mint, since)
            <==> IsSpendable(n, v.spent, mint) && n.leafIndex > since
                 && exists k :: 0 <= k < |v.notes| && v.notes[k].note == n
  {
    var unsorted := Fresh(v.notes, v.spent, mint, since);
    SortByLeafSorts(unsorted);
    FreshIff(v.notes, v.spent, mint, since, n);
    assert n in multiset(unsorted) <==> n in multiset(Above(v, mint, since));
  }

  lemma NextCursor(feed: Feed, i: nat)
    ensures CursorAt(feed, i + 1) >= CursorAt(feed, i)
    ensures forall n :: n in Delivered(feed, i) ==> n.leafIndex <= CursorAt(feed, i + 1)
  {
    MaxLeafIsHighest(CursorAt(feed, i), Delivered(feed, i));
  }

  lemma {:induction false} CursorOnlyRises(feed: Feed, i: nat, j: nat)
    requires i <= j
    ensures CursorAt(feed, i) <= CursorAt(feed, j)
  {
    if i < j {
      CursorOnlyRises(feed, i, j - 1);
      NextCursor(feed, j - 1);
    }
  }

  /** The first poll delivers every note that is unspent and in the filter, leaf 0 included. */
  lemma FirstPoll(views: seq<View>, mint: Option<nat>, n: SpendableNote)
    requires views != []
    ensures CursorAt(StoreFeed(views, mint), 0) == DecodeCursor(NoToken)
    ensures n in Delivered(StoreFeed(views, mint), 0) <==>
              && (mint.None? || n.plain.tokenMint == mint.value) && ToDecimal(n.commitment) !in views[0].spent
              && exists k :: 0 <= k < |views[0].notes| && views[0].notes[k].note == n
  {
    AboveIff(views[0], mint, -1, n);
  }

  /** What a poll delivered is at or below every later cursor. */
  lemma DeliveredBelowLaterCursors(feed: Feed, i: nat, j: nat, n: SpendableNote)
    requires i < j && n in Delivered(feed, i)
    ensures n.leafIndex <= CursorAt(feed, j)
  {
    NextCursor(feed, i);
    CursorOnlyRises(feed, i + 1, j);
  }

  /** One poll delivers in ascending leaf order, and each note once. */
  lemma PollIsSorted(views: seq<View>, mint: Option<nat>, i: nat, n: SpendableNote)
    requires i < |views| && WellKeyed(views[i].notes)
    ensures Ascending(Delivered(StoreFeed(views, mint), i))
    ensures multiset(Delivered(StoreFeed(views, mint), i))[n] <= 1
  {
    var v, since := views[i], CursorAt(StoreFeed(views, mint), i);
    SortByLeafSorts(Fresh(v.notes, v.spent, mint, since));
    FreshOnce(v.notes, v.spent, mint, since, n);
  }

  /** Over any sequence of polls of any stores, a later poll delivers only above everything delivered before. */
  lemma LaterPollsDeliverAbove(views: seq<View>, mint: Option<nat>, i: nat, j: nat, a: SpendableNote, b: SpendableNote)
    requires i < j < |views|
    requires a in Delivered(StoreFeed(views, mint), i) && b in Delivered(StoreFeed(views, mint), j)
    ensures a.leafIndex < b.leafIndex
  {
    StoreFeedAbove(views, mint);
    DeliveredBelowLaterCursors(StoreFeed(views, mint), i, j, a);
  }

  /**
   A note that is in the store, unspent and in the filter at poll i is delivered there exactly if its
   leaf index is above the cursor. If it is, no other poll delivers its leaf; if not, no later one does.
   */
  lemma DeliveredExactlyOnce(views: seq<View>, mint: Option<nat>, i: nat, k: nat, j: nat, other: SpendableNote)
    requires i < |views| && j < |views|
    requires k < |views[i].notes| && IsSpendable(views[i].notes[k].note, views[i].spent, mint)
    requires other.leafIndex == views[i].notes[k].note.leafIndex
    ensures var n, feed := views[i].notes[k].note, StoreFeed(views, mint);
            if n.leafIndex > CursorAt(feed, i) then
              n in Delivered(feed, i) && (j != i ==> other !in Delivered(feed, j))
            else
              j >= i ==> other !in Delivered(feed, j)
  {
    var n, feed := views[i].notes[k].note, StoreFeed(views, mint);
    StoreFeedAbove(views, mint);
    AboveIff(views[i], mint, CursorAt(feed, i), n);
    if other in Delivered(feed, j) {
      assert other.leafIndex > CursorAt(feed, j);
      if j < i {
        DeliveredBelowLaterCursors(feed, j, i, other);
      } else {
        CursorOnlyRises(feed, i, j);
        if i < j && n in Delivered(feed, i) {
          DeliveredBelowLaterCursors(feed, i, j, n);
        }
      }
    }
  }

  /** What the polls so far answered, and the cursor that the last one returned. */
  datatype Polls = Polls(answers: seq<seq<SpendableNote>>, cursor: Token)

  /** Every answer is what its poll delivers, and the cursor is where the next one starts from. */
  ghost predicate Polled(views: seq<View>, mint: Option<nat>, p: Polls) {
    match p
    case Polls(answers, cursor) =>
      && DecodeCursor(cursor) == CursorAt(StoreFeed(views, mint), |answers|)
      && forall i {:trigger answers[i]} :: 0 <= i < |answers| ==> answers[i] == Delivered(StoreFeed(views, mint), i)
  }

  lemma PolledNext(views: seq<View>, mint: Option<nat>, p: Polls, incoming: seq<SpendableNote>, next: Token)
    requires Polled(views, mint, p) && |p.answers| < |views|
    requires incoming == Above(views[|p.answers|], mint, DecodeCursor(p.cursor))
    requires DecodeCursor(next) == MaxLeaf(DecodeCursor(p.cursor), incoming)
    ensures Polled(views, mint, Polls(p.answers + [incoming], next))
  {
    assert incoming == Delivered(StoreFeed(views, mint), |p.answers|);
    assert DecodeCursor(next) == CursorAt(StoreFeed(views, mint), |p.answers| + 1);
  }

  /** Polls once for every view, each time with the cursor that the last poll returned. */
  method PollAll(views: seq<View>, mint: Option<nat>) returns (p: Polls)
    ensures |p.answers| == |views| && Polled(views, mint, p)
  {
    p := Polls([], NoToken);
    for i := 0 to |views|
      invariant |p.answers| == i && Polled(views, mint, p)
    {
      var incoming, next := WatchIncoming(views[i], mint, p.cursor);
      PolledNext(views, mint, p, incoming, next);
      p := Polls(p.answers + [incoming], next);
    }
  }

  // ----- Balances -----

  datatype Balance = Balance(mint: nat, amount: nat, depositCount: nat)

  /** The value and the number of the notes of one mint. */
  function Amount(notes: seq<SpendableNote>, mint: nat): nat {
    if notes == [] then 0
    else Amount(notes[..|notes| - 1], mint)
         + if notes[|notes| - 1].plain.tokenMint == mint then notes[|notes| - 1].plain.value else 0
  }

  function Count(notes: seq<SpendableNote>, mint: nat): nat {
    if notes == [] then 0
    else Count(notes[..|notes| - 1], mint) + if notes[|notes| - 1].plain.tokenMint == mint then 1 else 0
  }

  function TotalValue(notes: seq<SpendableNote>): nat {
    if notes == [] then 0 else TotalValue(notes[..|notes| - 1]) + notes[|notes| - 1].plain.value
  }

  function SumAmounts(b: seq<Balance>): nat {
    if b == [] then 0 else SumAmounts(b[..|b| - 1]) + b[|b| - 1].amount
  }

  function SumCounts(b: seq<Balance>): nat {
    if b == [] then 0 else SumCounts(b[..|b| - 1]) + b[|b| - 1].depositCount
  }

  /** One entry per mint that occurs, with that mint's value and number of notes. */
  ghost predicate IsBalanceOf(b: seq<Balance>, notes: seq<SpendableNote>) {
    && (forall i, j :: 0 <= i < j < |b| ==> b[i].mint != b[j].mint)
    && (forall i {:trigger b[i]} :: 0 <= i < |b| ==>
          b[i].amount == Amount(notes, b[i].mint) && b[i].depositCount == Count(notes, b[i].mint) > 0)
    && (forall k {:trigger notes[k]} :: 0 <= k < |notes| ==>
          HasEntry(b, notes[k].plain.tokenMint))
  }

  ghost predicate HasEntry(b: seq<Balance>, mint: nat) {
    exists i :: 0 <= i < |b| && b[i].mint == mint
  }

  ghost predicate Occurs(notes: seq<SpendableNote>, mint: nat) {
    exists k :: 0 <= k < |notes| && notes[k].plain.tokenMint == mint
  }

  /** One mint occurs before another does. */
  ghost predicate OccursFirst(notes: seq<SpendableNote>, mint: nat, other: nat) {
    exists k {:trigger notes[..k]} :: 0 <= k <= |notes| && Occurs(notes[..k], mint) && !Occurs(notes[..k], other)
  }

  /** The entries stand in the order in which their mints first occur. */
  ghost predicate InOrder(b: seq<Balance>, notes: seq<SpendableNote>) {
    forall i, j {:trigger b[i], b[j]} :: 0 <= i < j < |b| ==> OccursFirst(notes, b[i].mint, b[j].mint)
  }

  lemma OccursFirstStays(notes: seq<SpendableNote>, n: SpendableNote, mint: nat, other: nat)
    requires OccursFirst(notes, mint, other)
    ensures OccursFirst(notes + [n], mint, other)
  {
    var k :| 0 <= k <= |notes| && Occurs(notes[..k], mint) && !Occurs(notes[..k], other);
    assert (notes + [n])[..k] == notes[..k];
  }

  lemma NewOccursLast(notes: seq<SpendableNote>, n: SpendableNote, mint: nat)
    requires Occurs(notes, mint) && !Occurs(notes, n.plain.tokenMint)
    ensures OccursFirst(notes + [n], mint, n.plain.tokenMint)
  {
    assert (notes + [n])[..|notes|] == notes;
  }

  lemma {:induction false} CountedOccurs(notes: seq<SpendableNote>, mint: nat)
    ensures Count(notes, mint) > 0 <==> Occurs(notes, mint)
  {
    if notes != [] {
      var front, last := notes[..|notes| - 1], notes[|notes| - 1];
      CountedOccurs(front, mint);
      if k :| 0 <= k < |notes| && notes[k].plain.tokenMint == mint {
        assert k < |front| ==> front[k] == notes[k];
      }
      if k :| 0 <= k < |front| && front[k].plain.tokenMint == mint {
        assert notes[k] == front[k];
      }
      if last.plain.tokenMint == mint {
        assert notes[|notes| - 1].plain.tokenMint == mint;
      }
    }
  }

  /** An entry that is changed stays where it is, a new one goes last. */
  lemma OrderGrows(b: seq<Balance>, notes: seq<SpendableNote>, n: SpendableNote, c: seq<Balance>)
    requires IsBalanceOf(b, notes) && InOrder(b, notes)
    requires |b| <= |c| <= |b| + 1 && forall i :: 0 <= i < |b| ==> c[i].mint == b[i].mint
    requires |c| > |b| ==> c[|b|].mint == n.plain.tokenMint && forall i :: 0 <= i < |b| ==> b[i].mint != n.plain.tokenMint
    ensures InOrder(c, notes + [n])
  {
    forall i, j {:trigger c[i], c[j]} | 0 <= i < j < |c|
      ensures OccursFirst(notes + [n], c[i].mint, c[j].mint)
    {
      assert b[i].depositCount == Count(notes, b[i].mint) > 0;
      if j < |b| {
        assert OccursFirst(notes, b[i].mint, b[j].mint);
        OccursFirstStays(notes, n, b[i].mint, b[j].mint);
      } else {
        CountedOccurs(notes, b[i].mint);
        NoneBefore(b, notes, n.plain.tokenMint);
        CountedOccurs(notes, n.plain.tokenMint);
        NewOccursLast(notes, n, b[i].mint);
      }
    }
  }

  /** The entries together hold the value and the number of all notes. */
  predicate Conserves(b: seq<Balance>, notes: seq<SpendableNote>) {
    SumAmounts(b) == TotalValue(notes) && SumCounts(b) == |notes|
  }

  /** balance and status: one pass over the notes, one entry per mint in the order they first occur. */
  method Aggregate(notes: seq<SpendableNote>) returns (b: seq<Balance>)
    ensures IsBalanceOf(b, notes) && Conserves(b, notes) && InOrder(b, notes)
  {
    b := [];
    for i := 0 to |notes|
      invariant IsBalanceOf(b, notes[..i]) && Conserves(b, notes[..i]) && InOrder(b, notes[..i])
    {
      assert notes[..i + 1] == notes[..i] + [notes[i]];
      b := AddNote(b, notes[i], notes[..i]);
    }
    assert notes[..|notes|] == notes;
  }

  method AddNote(was: seq<Balance>, n: SpendableNote, ghost notes: seq<SpendableNote>) returns (b: seq<Balance>)
    requires IsBalanceOf(was, notes) && InOrder(was, notes)
    ensures IsBalanceOf(b, notes + [n]) && InOrder(b, notes + [n])
    ensures SumAmounts(b) == SumAmounts(was) + n.plain.value && SumCounts(b) == SumCounts(was) + 1
  {
    var at := Find(was, n.plain.tokenMint);
    if at < |was| {
      b := was[at := Balance(n.plain.tokenMint, was[at].amount + n.plain.value, was[at].depositCount + 1)];
      SumsUpdate(was, at, b[at]);
    } else {
      b := was + [Balance(n.plain.tokenMint, n.plain.value, 1)];
      NoneBefore(was, notes, n.plain.tokenMint);
    }
    BalanceGrows(was, notes, n, at, b);
    OrderGrows(was, notes, n, b);
  }

  /** Map.get by position; the length of the sequence if the mint is new. */
  method Find(b: seq<Balance>, mint: nat) returns (at: nat)
    ensures at <= |b|
    ensures at < |b| ==> b[at].mint == mint
    ensures at == |b| ==> forall i :: 0 <= i < |b| ==> b[i].mint != mint
  {
    at := 0;
    while at < |b| && b[at].mint != mint
      invariant at <= |b|
      invariant forall i :: 0 <= i < at ==> b[i].mint != mint
    {
      at := at + 1;
    }
  }

  lemma AmountSnoc(notes: seq<SpendableNote>, n: SpendableNote, mint: nat)
    ensures Amount(notes + [n], mint) == Amount(notes, mint) + if n.plain.tokenMint == mint then n.plain.value else 0
    ensures Count(notes + [n], mint) == Count(notes, mint) + if n.plain.tokenMint == mint then 1 else 0
  {
    assert (notes + [n])[..|notes|] == notes;
  }

  lemma {:induction false} SumsUpdate(b: seq<Balance>, at: nat, x: Balance)
    requires at < |b|
    ensures SumAmounts(b[at := x]) + b[at].amount == SumAmounts(b) + x.amount
    ensures SumCounts(b[at := x]) + b[at].depositCount == SumCounts(b) + x.depositCount
  {
    var last := |b| - 1;
    if at < last {
      SumsUpdate(b[..last], at, x);
      assert b[at := x][..last] == b[..last][at := x];
    } else {
      assert b[at := x][..last] == b[..last];
    }
  }

  /** A mint without an entry has no notes. */
  lemma NoneBefore(b: seq<Balance>, notes: seq<SpendableNote>, mint: nat)
    requires IsBalanceOf(b, notes)
    requires forall i :: 0 <= i < |b| ==> b[i].mint != mint
    ensures Amount(notes, mint) == 0 && Count(notes, mint) == 0
  {
    NoNotesNoAmount(notes, mint);
  }

  lemma {:induction false} NoNotesNoAmount(notes: seq<SpendableNote>, mint: nat)
    requires forall k {:trigger notes[k]} :: 0 <= k < |notes| ==> notes[k].plain.tokenMint != mint
    ensures Amount(notes, mint) == 0 && Count(notes, mint) == 0
  {
    if notes != [] {
      NoNotesNoAmount(notes[..|notes| - 1], mint);
    }
  }

  /** One more note changes the entry of its mint only. */
  lemma BalanceGrows(b: seq<Balance>, notes: seq<SpendableNote>, n: SpendableNote, at: nat, c: seq<Balance>)
    requires IsBalanceOf(b, notes)
    requires at <= |b|
    requires at < |b| ==>
               && b[at].mint == n.plain.tokenMint
               && c == b[at := Balance(n.plain.tokenMint, b[at].amount + n.plain.value, b[at].depositCount + 1)]
    requires at == |b| ==>
               && (forall i :: 0 <= i < |b| ==> b[i].mint != n.plain.tokenMint)
               && c == b + [Balance(n.plain.tokenMint, n.plain.value, 1)]
    ensures IsBalanceOf(c, notes + [n])
  {
    var after := notes + [n];
    if at == |b| {
      NoneBefore(b, notes, n.plain.tokenMint);
    }
    forall i | 0 <= i < |c|
      ensures c[i].amount == Amount(after, c[i].mint) && c[i].depositCount == Count(after, c[i].mint) > 0
    {
      AmountSnoc(notes, n, c[i].mint);
      assert i < |b| ==> b[i].amount == Amount(notes, b[i].mint) && b[i].depositCount == Count(notes, b[i].mint) > 0;
    }
    forall k | 0 <= k < |after|
      ensures HasEntry(c, after[k].plain.tokenMint)
    {
      if k == |notes| {
        assert c[at].mint == n.plain.tokenMint;
      } else {
        assert notes[k] == after[k] && HasEntry(b, notes[k].plain.tokenMint);
        var i :| 0 <= i < |b| && b[i].mint == notes[k].plain.tokenMint;
        assert c[i].mint == b[i].mint;
      }
    }
  }

  /** The second list tells of one mint what the first does, and nothing of another one. */
  ghost predicate TellsOf(some: seq<SpendableNote>, all: seq<SpendableNote>, mint: nat, other: nat) {
    && Amount(some, mint) == Amount(all, mint) && Count(some, mint) == Count(all, mint)
    && (other != mint ==> Count(some, other) == 0)
  }

  lemma TellsSnoc(some: seq<SpendableNote>, all: seq<SpendableNote>, n: SpendableNote, mint: nat, other: nat)
    requires TellsOf(some, all, mint, other)
    ensures n.plain.tokenMint == mint ==> TellsOf(some + [n], all + [n], mint, other)
    ensures n.plain.tokenMint != mint ==> TellsOf(some, all + [n], mint, other)
  {
    AmountSnoc(all, n, mint);
    AmountSnoc(some, n, mint);
    AmountSnoc(some, n, other);
  }

  /** Filtering the notes by a mint first changes nothing about that mint, and drops all others. */
  lemma {:induction false} FilterKeepsMint(notes: seq<Entry>, spent: set<string>, mint: nat, other: nat)
    ensures TellsOf(Spendable(notes, spent, Some(mint)), Spendable(notes, spent, None), mint, other)
  {
    if notes != [] {
      var rest, e := notes[..|notes| - 1], notes[|notes| - 1];
      var some, all := Spendable(rest, spent, Some(mint)), Spendable(rest, spent, None);
      FilterKeepsMint(rest, spent, mint, other);
      TellsSnoc(some, all, e.note, mint, other);
      if !IsSpendable(e.note, spent, None) {
        assert Spendable(notes, spent, None) == all && Spendable(notes, spent, Some(mint)) == some;
      } else if e.note.plain.tokenMint == mint {
        assert Spendable(notes, spent, None) == all + [e.note] && Spendable(notes, spent, Some(mint)) == some + [e.note];
      } else {
        assert Spendable(notes, spent, None) == all + [e.note] && Spendable(notes, spent, Some(mint)) == some;
      }
    }
  }

  /** An entry of a balance is determined by its mint. */
  lemma EntryOf(b: seq<Balance>, notes: seq<SpendableNote>, mint: nat)
    requires IsBalanceOf(b, notes)
    ensures if Count(notes, mint) == 0 then
              forall i :: 0 <= i < |b| ==> b[i].mint != mint
            else
              Balance(mint, Amount(notes, mint), Count(notes, mint)) in b
  {
    if Count(notes, mint) > 0 && forall i :: 0 <= i < |b| ==> b[i].mint != mint {
      NoneBefore(b, notes, mint);
    }
    forall i | 0 <= i < |b| && b[i].mint == mint
      ensures Count(notes, mint) > 0 && b[i] == Balance(mint, Amount(notes, mint), Count(notes, mint))
    {
      assert b[i].depositCount == Count(notes, b[i].mint);
    }
    if i :| 0 <= i < |b| && b[i].mint == mint {
      assert b[i] in b;
    }
  }

  /** balance with a mint filter is the entry that balance without one has for the mint, or nothing if it has none. */
  lemma FilteredBalanceIsEntry(notes: seq<Entry>, spent: set<string>, mint: nat, b: seq<Balance>, c: seq<Balance>)
    requires IsBalanceOf(b, Spendable(notes, spent, None))
    requires IsBalanceOf(c, Spendable(notes, spent, Some(mint)))
    ensures if HasEntry(b, mint) then |c| == 1 && c[0] in b && c[0].mint == mint else c == []
  {
    var all, some := Spendable(notes, spent, None), Spendable(notes, spent, Some(mint));
    assert |c| > 1 ==> c[0].mint != c[1].mint;
    FilterKeepsMint(notes, spent, mint, mint);
    EntryOf(b, all, mint);
    EntryOf(c, some, mint);
    forall i | 0 <= i < |c|
      ensures c[i].mint == mint
    {
      FilterKeepsMint(notes, spent, mint, c[i].mint);
      assert c[i].depositCount == Count(some, c[i].mint) > 0;
    }
    assert c != [] ==> c[0].mint == mint;
  }
}
