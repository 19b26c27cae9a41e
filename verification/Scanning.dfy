/**
 packages/sdk/src/note-store.ts: what the note store's calls do to its memory, its snapshot file and a
 record of what it has fetched, as functions, and what a cursor promises over them.
 */
module Scanning {
  import opened NoteData
  import opened TextCodec
  import opened Wrappers

  /** A getTransaction call rejects, finds no logs, or returns the transaction's logs. */
  datatype Outcome = Rejected | NoLogs | Logs

  /**
   Which signatures have been through the fetch step, which of those came back with logs, and every note
   that was ever put into the map, each in the order it happened.
   */
  datatype Progress = Progress(scanned: seq<Sig>, fetched: seq<Sig>, given: seq<SpendableNote>)

  /** A snapshot that reached the disk, with the signatures scanned and fetched up to then. */
  datatype Record = Record(mem: Memory, progress: Progress)

  /** A store and the disk below it at one moment; journal holds every snapshot that reached the disk. */
  datatype Moment = Moment(mem: Memory, progress: Progress, fetches: nat, writes: nat, journal: seq<Record>)

  /** What does not change: the wallet, whether there is a file, and how the n-th fetch and write turn out. */
  datatype Setting = Setting(wallet: Wallet, persists: bool, outcome: nat -> Outcome, writeOk: nat -> bool)

  // ----- The calls -----

  /** _persist */
  function Save(env: Setting, m: Moment): Moment {
    if !env.persists then m
    else m.(writes := m.writes + 1,
            journal := m.journal + if env.writeOk(m.writes) then [Record(m.mem, m.progress)] else [])
  }

  /** The file after some snapshots reached the disk. */
  function FileOf(journal: seq<Record>): File {
    if journal == [] then Missing else Snapshot(journal[|journal| - 1].mem)
  }

  /** The last step of a backfill: the cursor moves if there is a new one, and the move is written. */
  function Moved(env: Setting, m: Moment, cursor: Option<Sig>): Moment {
    if cursor.None? then m else Save(env, m.(mem := m.mem.(cursor := cursor)))
  }

  /** The note that a call puts into the map. */
  function GivenBy(wallet: Wallet, op: Op): seq<SpendableNote> {
    match op
    case Insert(n) => [n]
    case Ingest(e) => if wallet.Claim(e).Some? then [wallet.Claim(e).value] else []
    case Mark(_) => []
  }

  /** insertNote, ingestCommitment and markSpent */
  function Mutate(env: Setting, m: Moment, op: Op): Moment {
    var given := m.progress.given + GivenBy(env.wallet, op);
    var after := m.(mem := Apply(env.wallet, m.mem, op), progress := m.progress.(given := given));
    if Writes(env.wallet, op) then Save(env, after) else after
  }

  /** What a call makes of the memory and the file. */
  lemma MutateFile(env: Setting, m: Moment, op: Op)
    ensures var after := Mutate(env, m, op);
            && after.mem == Apply(env.wallet, m.mem, op)
            && if env.persists && Writes(env.wallet, op) then
                 && after.writes == m.writes + 1
                 && FileOf(after.journal) == if env.writeOk(m.writes) then Snapshot(after.mem) else FileOf(m.journal)
               else
                 after.writes == m.writes && after.journal == m.journal
  {
  }

  /** One event of a backfill: a commitment that is held already is skipped. */
  function Take(env: Setting, m: Moment, e: Event): Moment {
    if Has(m.mem.notes, ToDecimal(e.commitment)) then m else Mutate(env, m, Ingest(e))
  }

  function TakeAll(env: Setting, m: Moment, events: seq<Event>): Moment {
    if events == [] then m else Take(env, TakeAll(env, m, events[..|events| - 1]), events[|events| - 1])
  }

  /** A failed transaction is not fetched. */
  predicate IsTried(chain: seq<Tx>, sig: Sig) {
    sig < |chain| && !chain[sig].failed
  }

  /** A signature has been through the fetch step. */
  function Seen(m: Moment, sig: Sig, fetches: nat): Moment {
    m.(progress := m.progress.(scanned := m.progress.scanned + [sig]), fetches := fetches)
  }

  /** It came back with logs, which have been taken in. */
  function Fetched(m: Moment, sig: Sig): Moment {
    m.(progress := m.progress.(fetched := m.progress.fetched + [sig]))
  }

  /** One signature of a backfill: only a transaction that comes back with logs has its events taken in. */
  function Scan(env: Setting, chain: seq<Tx>, m: Moment, sig: Sig): Moment {
    if !IsTried(chain, sig) then Seen(m, sig, m.fetches)
    else if env.outcome(m.fetches) != Logs then Seen(m, sig, m.fetches + 1)
    else Fetched(TakeAll(env, Seen(m, sig, m.fetches + 1), chain[sig].events), sig)
  }

  lemma ScanSteps(env: Setting, chain: seq<Tx>, m: Moment, sig: Sig)
    ensures !IsTried(chain, sig) ==> Scan(env, chain, m, sig) == Seen(m, sig, m.fetches)
    ensures IsTried(chain, sig) && env.outcome(m.fetches) != Logs ==> Scan(env, chain, m, sig) == Seen(m, sig, m.fetches + 1)
    ensures IsTried(chain, sig) && env.outcome(m.fetches) == Logs ==>
              Scan(env, chain, m, sig) == Fetched(TakeAll(env, Seen(m, sig, m.fetches + 1), chain[sig].events), sig)
  {
  }

  function ScanAll(env: Setting, chain: seq<Tx>, m: Moment, visited: seq<Sig>): Moment {
    if visited == [] then m
    else Scan(env, chain, ScanAll(env, chain, m, visited[..|visited| - 1]), visited[|visited| - 1])
  }

  lemma ScanAllSnoc(env: Setting, chain: seq<Tx>, m: Moment, visited: seq<Sig>, sig: Sig)
    ensures ScanAll(env, chain, m, visited + [sig]) == Scan(env, chain, ScanAll(env, chain, m, visited), sig)
  {
    assert (visited + [sig])[..|visited|] == visited;
  }

  lemma {:induction false} ScanAllConcat(env: Setting, chain: seq<Tx>, m: Moment, v: seq<Sig>, w: seq<Sig>)
    ensures ScanAll(env, chain, m, v + w) == ScanAll(env, chain, ScanAll(env, chain, m, v), w)
  {
    if w == [] {
      assert v + w == v;
    } else {
      assert (v + w)[..|v + w| - 1] == v + w[..|w| - 1];
      ScanAllConcat(env, chain, m, v, w[..|w| - 1]);
    }
  }

  /** The positions of a list are all in the history. */
  ghost predicate InChain(chain: seq<Tx>, visited: seq<Sig>) {
    forall i {:trigger visited[i]} :: 0 <= i < |visited| ==> visited[i] < |chain|
  }

  // ----- What scanning amounts to -----

  /** How many fetches the signatures take. */
  function Fetches(chain: seq<Tx>, visited: seq<Sig>): nat {
    if visited == [] then 0
    else Fetches(chain, visited[..|visited| - 1]) + if IsTried(chain, visited[|visited| - 1]) then 1 else 0
  }

  /** Whether the last of the signatures comes back with logs, the first fetch being number from. */
  predicate LastIsRead(chain: seq<Tx>, outcome: nat -> Outcome, from: nat, visited: seq<Sig>)
    requires visited != []
  {
    && IsTried(chain, visited[|visited| - 1])
    && outcome(from + Fetches(chain, visited[..|visited| - 1])) == Logs
  }

  /** The events of the transactions that come back with logs, in the order they are taken in. */
  function Gathered(chain: seq<Tx>, outcome: nat -> Outcome, from: nat, visited: seq<Sig>): seq<Event> {
    if visited == [] then []
    else
      Gathered(chain, outcome, from, visited[..|visited| - 1])
      + if LastIsRead(chain, outcome, from, visited) then chain[visited[|visited| - 1]].events else []
  }

  /** The signatures that come back with logs. */
  function Read(chain: seq<Tx>, outcome: nat -> Outcome, from: nat, visited: seq<Sig>): seq<Sig> {
    if visited == [] then []
    else
      Read(chain, outcome, from, visited[..|visited| - 1])
      + if LastIsRead(chain, outcome, from, visited) then [visited[|visited| - 1]] else []
  }

  lemma {:induction false} SameScanOnLongerChain(env: Setting, chain: seq<Tx>, more: seq<Tx>, m: Moment, visited: seq<Sig>)
    requires InChain(chain, visited)
    ensures ScanAll(env, chain + more, m, visited) == ScanAll(env, chain, m, visited)
  {
    if visited != [] {
      SameScanOnLongerChain(env, chain, more, m, visited[..|visited| - 1]);
      assert visited[|visited| - 1] < |chain|;
    }
  }

  lemma {:induction false} SameOnLongerChain(chain: seq<Tx>, more: seq<Tx>, outcome: nat -> Outcome, from: nat, visited: seq<Sig>)
    requires InChain(chain, visited)
    ensures Fetches(chain + more, visited) == Fetches(chain, visited)
    ensures Gathered(chain + more, outcome, from, visited) == Gathered(chain, outcome, from, visited)
  {
    if visited != [] {
      SameOnLongerChain(chain, more, outcome, from, visited[..|visited| - 1]);
      assert visited[|visited| - 1] < |chain|;
    }
  }

  /** What a backfill reports. */
  datatype Tally = Tally(txsScanned: nat, eventsSeen: nat, notesIngested: nat)

  function Grown(a: seq<Entry>, b: seq<Entry>): nat {
    if |a| <= |b| then |b| - |a| else 0
  }

  /** Of a scan that leads from m to after. */
  function TallyOf(env: Setting, chain: seq<Tx>, m: Moment, visited: seq<Sig>, after: Moment): Tally {
    Tally(|visited|, |Gathered(chain, env.outcome, m.fetches, visited)|, Grown(m.mem.notes, after.mem.notes))
  }

  /** Taking events in is absorbing them, with one write for each note that is new. */
  lemma {:induction false} TakeAllIs(env: Setting, m: Moment, events: seq<Event>)
    ensures var after := TakeAll(env, m, events);
            && after.mem == m.mem.(notes := Absorb(env.wallet, m.mem.notes, events))
            && after.progress.scanned == m.progress.scanned && after.progress.fetched == m.progress.fetched
            && after.fetches == m.fetches
            && Wrote(env, m, after)
  {
    if events != [] {
      var before := TakeAll(env, m, events[..|events| - 1]);
      var e := events[|events| - 1];
      TakeAllIs(env, m, events[..|events| - 1]);
      if env.wallet.Claim(e).Some? {
        PutHas(before.mem.notes, ToDecimal(e.commitment), env.wallet.Claim(e).value, "");
      }
    }
  }

  /** One write for every note that is new, and no snapshot lost. */
  ghost predicate Wrote(env: Setting, a: Moment, b: Moment) {
    && |b.mem.notes| >= |a.mem.notes|
    && (if env.persists then b.writes == a.writes + |b.mem.notes| - |a.mem.notes| else b.writes == a.writes)
    && a.journal <= b.journal
  }

  /** What is left behind by scanning some signatures, of which some are read, after some fetches and with some events. */
  ghost predicate Leaves(env: Setting, a: Moment, b: Moment, visited: seq<Sig>, events: seq<Event>, read: seq<Sig>, tries: nat) {
    match b
    case Moment(mem, progress, fetches, _, _) =>
      && mem == a.mem.(notes := Absorb(env.wallet, a.mem.notes, events))
      && progress.scanned == a.progress.scanned + visited
      && progress.fetched == a.progress.fetched + read
      && fetches == a.fetches + tries
      && Wrote(env, a, b)
  }

  /** That, with exactly the events of the transactions that come back with logs. */
  ghost predicate Scanned(env: Setting, chain: seq<Tx>, a: Moment, b: Moment, visited: seq<Sig>) {
    Leaves(env, a, b, visited, Gathered(chain, env.outcome, a.fetches, visited),
           Read(chain, env.outcome, a.fetches, visited), Fetches(chain, visited))
  }

  lemma ConcatAssoc<T>(a: seq<T>, b: seq<T>, c: seq<T>)
    ensures a + b + c == a + (b + c)
  {
  }

  lemma LeavesJoin(env: Setting, a: Moment, b: Moment, c: Moment, v: seq<Sig>, w: seq<Sig>, events: seq<Event>, more: seq<Event>,
                   read: seq<Sig>, alsoRead: seq<Sig>, tries: nat, moreTries: nat)
    requires Leaves(env, a, b, v, events, read, tries) && Leaves(env, b, c, w, more, alsoRead, moreTries)
    ensures Leaves(env, a, c, v + w, events + more, read + alsoRead, tries + moreTries)
  {
    AbsorbConcat(env.wallet, a.mem.notes, events, more);
    ConcatAssoc(a.progress.scanned, v, w);
    ConcatAssoc(a.progress.fetched, read, alsoRead);
  }

  lemma LeavesNext(env: Setting, a: Moment, b: Moment, c: Moment, v: seq<Sig>, w: seq<Sig>, events: seq<Event>, more: seq<Event>,
                   read: seq<Sig>, alsoRead: seq<Sig>, tries: nat, moreTries: nat,
                   allEvents: seq<Event>, allRead: seq<Sig>, allTries: nat)
    requires Leaves(env, a, b, v, events, read, tries) && Leaves(env, b, c, w, more, alsoRead, moreTries)
    requires allEvents == events + more && allRead == read + alsoRead && allTries == tries + moreTries
    ensures Leaves(env, a, c, v + w, allEvents, allRead, allTries)
  {
    LeavesJoin(env, a, b, c, v, w, events, more, read, alsoRead, tries, moreTries);
  }

  /** The share of one signature. */
  function EventsOf(chain: seq<Tx>, outcome: nat -> Outcome, from: nat, sig: Sig): seq<Event> {
    if IsTried(chain, sig) && outcome(from) == Logs then chain[sig].events else []
  }

  function ReadOf(chain: seq<Tx>, outcome: nat -> Outcome, from: nat, sig: Sig): seq<Sig> {
    if IsTried(chain, sig) && outcome(from) == Logs then [sig] else []
  }

  function TriesOf(chain: seq<Tx>, sig: Sig): nat {
    if IsTried(chain, sig) then 1 else 0
  }

  lemma GatheredSnoc(chain: seq<Tx>, outcome: nat -> Outcome, from: nat, front: seq<Sig>, sig: Sig)
    ensures Fetches(chain, front + [sig]) == Fetches(chain, front) + TriesOf(chain, sig)
    ensures Gathered(chain, outcome, from, front + [sig])
            == Gathered(chain, outcome, from, front) + EventsOf(chain, outcome, from + Fetches(chain, front), sig)
    ensures Read(chain, outcome, from, front + [sig])
            == Read(chain, outcome, from, front) + ReadOf(chain, outcome, from + Fetches(chain, front), sig)
  {
    assert (front + [sig])[..|front|] == front;
  }

  lemma ScanIs(env: Setting, chain: seq<Tx>, b: Moment, sig: Sig)
    ensures Leaves(env, b, Scan(env, chain, b, sig), [sig], EventsOf(chain, env.outcome, b.fetches, sig),
                   ReadOf(chain, env.outcome, b.fetches, sig), TriesOf(chain, sig))
  {
    if IsTried(chain, sig) && env.outcome(b.fetches) == Logs {
      TakeAllIs(env, Seen(b, sig, b.fetches + 1), chain[sig].events);
    }
  }

  lemma ScanOfOne(env: Setting, chain: seq<Tx>, m: Moment, sig: Sig)
    ensures var after := Scan(env, chain, m, sig);
            var read := IsTried(chain, sig) && env.outcome(m.fetches) == Logs;
            && ScanAll(env, chain, m, [sig]) == after
            && TallyOf(env, chain, m, [sig], after) == Tally(1, if read then |chain[sig].events| else 0, Grown(m.mem.notes, after.mem.notes))
  {
    assert [] + [sig] == [sig];
    ScanAllSnoc(env, chain, m, [], sig);
    GatheredSnoc(chain, env.outcome, m.fetches, [], sig);
  }

  lemma ScannedSnoc(env: Setting, chain: seq<Tx>, a: Moment, b: Moment, c: Moment, front: seq<Sig>, sig: Sig, from: nat)
    requires Scanned(env, chain, a, b, front) && from == a.fetches + Fetches(chain, front)
    requires Leaves(env, b, c, [sig], EventsOf(chain, env.outcome, from, sig),
                    ReadOf(chain, env.outcome, from, sig), TriesOf(chain, sig))
    ensures Scanned(env, chain, a, c, front + [sig])
  {
    GatheredSnoc(chain, env.outcome, a.fetches, front, sig);
    LeavesNext(env, a, b, c, front, [sig],
               Gathered(chain, env.outcome, a.fetches, front), EventsOf(chain, env.outcome, from, sig),
               Read(chain, env.outcome, a.fetches, front), ReadOf(chain, env.outcome, from, sig),
               Fetches(chain, front), TriesOf(chain, sig),
               Gathered(chain, env.outcome, a.fetches, front + [sig]), Read(chain, env.outcome, a.fetches, front + [sig]),
               Fetches(chain, front + [sig]));
  }

  /** Scanning absorbs exactly the events of the transactions that come back with logs. */
  lemma {:induction false} ScanAllIs(env: Setting, chain: seq<Tx>, m: Moment, visited: seq<Sig>)
    ensures Scanned(env, chain, m, ScanAll(env, chain, m, visited), visited)
  {
    if visited != [] {
      var front, sig := visited[..|visited| - 1], visited[|visited| - 1];
      ScanAllIs(env, chain, m, front);
      ScanIs(env, chain, ScanAll(env, chain, m, front), sig);
      ScannedSnoc(env, chain, m, ScanAll(env, chain, m, front), ScanAll(env, chain, m, visited), front, sig,
                  ScanAll(env, chain, m, front).fetches);
      assert visited == front + [sig];
    }
  }

  lemma ScanAllCounts(env: Setting, chain: seq<Tx>, m: Moment, visited: seq<Sig>)
    ensures ScanAll(env, chain, m, visited).fetches == m.fetches + Fetches(chain, visited)
    ensures |ScanAll(env, chain, m, visited).mem.notes| >= |m.mem.notes|
  {
    ScanAllIs(env, chain, m, visited);
  }

  lemma {:induction false} GatheredConcat(chain: seq<Tx>, outcome: nat -> Outcome, from: nat, v: seq<Sig>, w: seq<Sig>)
    ensures Fetches(chain, v + w) == Fetches(chain, v) + Fetches(chain, w)
    ensures Gathered(chain, outcome, from, v + w)
            == Gathered(chain, outcome, from, v) + Gathered(chain, outcome, from + Fetches(chain, v), w)
  {
    if w == [] {
      assert v + w == v;
    } else {
      assert (v + w)[..|v + w| - 1] == v + w[..|w| - 1];
      GatheredConcat(chain, outcome, from, v, w[..|w| - 1]);
    }
  }

  lemma TalliesAdd(env: Setting, chain: seq<Tx>, m: Moment, v: seq<Sig>, w: seq<Sig>, n: Moment, o: Moment)
    requires n.fetches == m.fetches + Fetches(chain, v) && |m.mem.notes| <= |n.mem.notes| <= |o.mem.notes|
    ensures var t, u := TallyOf(env, chain, m, v, n), TallyOf(env, chain, n, w, o);
            TallyOf(env, chain, m, v + w, o)
            == Tally(t.txsScanned + u.txsScanned, t.eventsSeen + u.eventsSeen, t.notesIngested + u.notesIngested)
  {
    GatheredConcat(chain, env.outcome, m.fetches, v, w);
  }

  /** Two portions: one scan after the other, and the counters add up. */
  lemma TallyMore(env: Setting, chain: seq<Tx>, m: Moment, v: seq<Sig>, w: seq<Sig>, n: Moment, o: Moment)
    requires n == ScanAll(env, chain, m, v) && o == ScanAll(env, chain, n, w)
    ensures o == ScanAll(env, chain, m, v + w)
    ensures var t, u := TallyOf(env, chain, m, v, n), TallyOf(env, chain, n, w, o);
            TallyOf(env, chain, m, v + w, o)
            == Tally(t.txsScanned + u.txsScanned, t.eventsSeen + u.eventsSeen, t.notesIngested + u.notesIngested)
  {
    ScanAllConcat(env, chain, m, v, w);
    ScanAllCounts(env, chain, m, v);
    ScanAllCounts(env, chain, n, w);
    TalliesAdd(env, chain, m, v, w, n, o);
  }

  /** One signature after the first i. */
  lemma ScanNext(env: Setting, chain: seq<Tx>, m: Moment, visited: seq<Sig>, i: nat, n: Moment, o: Moment)
    requires i < |visited| && n == ScanAll(env, chain, m, visited[..i]) && o == Scan(env, chain, n, visited[i])
    ensures o == ScanAll(env, chain, m, visited[..i + 1])
    ensures var t, read := TallyOf(env, chain, m, visited[..i], n), IsTried(chain, visited[i]) && env.outcome(n.fetches) == Logs;
            TallyOf(env, chain, m, visited[..i + 1], o)
            == Tally(t.txsScanned + 1, t.eventsSeen + (if read then |chain[visited[i]].events| else 0),
                     t.notesIngested + Grown(n.mem.notes, o.mem.notes))
  {
    ScanOfOne(env, chain, n, visited[i]);
    TallyMore(env, chain, m, visited[..i], [visited[i]], n, o);
    assert visited[..i + 1] == visited[..i] + [visited[i]];
  }

  /** Scanning puts only the wallet's claims of events that it gathered into the map. */
  lemma {:induction false} TakeAllGives(env: Setting, m: Moment, events: seq<Event>, n: SpendableNote)
    requires n in TakeAll(env, m, events).progress.given
    ensures n in m.progress.given || exists e :: e in events && env.wallet.Claim(e) == Some(n)
  {
    if events != [] {
      var front, e := events[..|events| - 1], events[|events| - 1];
      if n in TakeAll(env, m, front).progress.given {
        TakeAllGives(env, m, front, n);
      } else {
        assert e in events && env.wallet.Claim(e) == Some(n);
      }
    }
  }

  lemma ScanGives(env: Setting, chain: seq<Tx>, m: Moment, sig: Sig, n: SpendableNote)
    requires n in Scan(env, chain, m, sig).progress.given && n !in m.progress.given
    ensures IsTried(chain, sig) && env.outcome(m.fetches) == Logs
    ensures exists e :: e in chain[sig].events && env.wallet.Claim(e) == Some(n)
  {
    if IsTried(chain, sig) {
      TakeAllGives(env, Seen(m, sig, m.fetches + 1), chain[sig].events, n);
    }
  }

  lemma {:induction false} ScanAllGives(env: Setting, chain: seq<Tx>, m: Moment, visited: seq<Sig>, n: SpendableNote)
    requires n in ScanAll(env, chain, m, visited).progress.given && n !in m.progress.given
    ensures exists e :: e in Gathered(chain, env.outcome, m.fetches, visited) && env.wallet.Claim(e) == Some(n)
  {
    var front, sig := visited[..|visited| - 1], visited[|visited| - 1];
    var before := ScanAll(env, chain, m, front);
    assert visited == front + [sig];
    GatheredSnoc(chain, env.outcome, m.fetches, front, sig);
    ScanAllCounts(env, chain, m, front);
    if n in before.progress.given {
      ScanAllGives(env, chain, m, front, n);
    } else {
      ScanGives(env, chain, before, sig, n);
    }
  }

  // ----- What a cursor promises -----


  /**
   What a cursor promises: everything at or older than it has been through the fetch step, and whatever
   of it came back with logs has left its notes in the map.
   */
  ghost predicate CursorHolds(wallet: Wallet, chain: seq<Tx>, m: Memory, p: Progress) {
    m.cursor.Some? ==>
      && m.cursor.value < |chain|
      && forall s: nat {:trigger s in p.scanned} :: s <= m.cursor.value ==>
           s in p.scanned && (s in p.fetched ==> Covered(wallet, chain[s], m.notes))
  }

  /** Everything fetched so far has left its notes in the map. */
  ghost predicate FetchedCovered(wallet: Wallet, chain: seq<Tx>, notes: seq<Entry>, fetched: seq<Sig>) {
    forall s {:trigger s in fetched} :: s in fetched ==> s < |chain| && Covered(wallet, chain[s], notes)
  }

  /** Every note in the map was inserted or claimed once. */
  ghost predicate AllGiven(notes: seq<Entry>, given: seq<SpendableNote>) {
    forall i {:trigger notes[i]} :: 0 <= i < |notes| ==> notes[i].note in given
  }

  ghost predicate Sound(wallet: Wallet, chain: seq<Tx>, m: Memory, p: Progress) {
    WellKeyed(m.notes) && AllGiven(m.notes, p.given) && CursorHolds(wallet, chain, m, p)
  }

  /** Every record is sound, whichever of them a crash leaves. */
  ghost predicate JournalSound(wallet: Wallet, chain: seq<Tx>, journal: seq<Record>) {
    forall k {:trigger journal[k]} :: 0 <= k < |journal| ==> Sound(wallet, chain, journal[k].mem, journal[k].progress)
  }

  ghost predicate SoundAt(wallet: Wallet, chain: seq<Tx>, m: Moment) {
    match m
    case Moment(mem, progress, _, _, journal) =>
      && Sound(wallet, chain, mem, progress)
      && JournalSound(wallet, chain, journal)
      && FetchedCovered(wallet, chain, mem.notes, progress.fetched)
  }

  lemma CoveredKept(wallet: Wallet, tx: Tx, a: seq<Entry>, b: seq<Entry>)
    requires Covered(wallet, tx, a) && Keeps(a, b)
    ensures Covered(wallet, tx, b)
  {
  }

  lemma SoundOnLongerChain(wallet: Wallet, chain: seq<Tx>, more: seq<Tx>, m: Moment)
    requires SoundAt(wallet, chain, m)
    ensures SoundAt(wallet, chain + more, m)
  {
    forall k | 0 <= k < |m.journal|
      ensures Sound(wallet, chain + more, m.journal[k].mem, m.journal[k].progress)
    {
      assert Sound(wallet, chain, m.journal[k].mem, m.journal[k].progress);
    }
  }

  lemma SaveSound(env: Setting, chain: seq<Tx>, m: Moment)
    requires SoundAt(env.wallet, chain, m)
    ensures SoundAt(env.wallet, chain, Save(env, m))
  {
    var journal := Save(env, m).journal;
    forall k | 0 <= k < |journal|
      ensures Sound(env.wallet, chain, journal[k].mem, journal[k].progress)
    {
      assert k < |m.journal| ==> journal[k] == m.journal[k];
    }
  }

  /** More notes break no promise. */
  lemma MoreNotesSound(wallet: Wallet, chain: seq<Tx>, m: Moment, notes: seq<Entry>, given: seq<SpendableNote>)
    requires SoundAt(wallet, chain, m)
    requires WellKeyed(notes) && Keeps(m.mem.notes, notes) && AllGiven(notes, given)
    ensures SoundAt(wallet, chain, m.(mem := m.mem.(notes := notes), progress := m.progress.(given := given)))
  {
    forall s: Sig | s < |chain| && Covered(wallet, chain[s], m.mem.notes)
      ensures Covered(wallet, chain[s], notes)
    {
      CoveredKept(wallet, chain[s], m.mem.notes, notes);
    }
  }

  lemma MutateSound(env: Setting, chain: seq<Tx>, m: Moment, op: Op)
    requires SoundAt(env.wallet, chain, m)
    ensures SoundAt(env.wallet, chain, Mutate(env, m, op))
  {
    var given := m.progress.given + GivenBy(env.wallet, op);
    var after := m.(mem := Apply(env.wallet, m.mem, op), progress := m.progress.(given := given));
    match op {
      case Insert(n) => PutKeeps(m.mem.notes, n, m.progress.given);
      case Ingest(e) =>
        if env.wallet.Claim(e).Some? {
          PutKeeps(m.mem.notes, env.wallet.Claim(e).value, m.progress.given);
        }
      case Mark(_) =>
    }
    if op.Mark? {
      assert SoundAt(env.wallet, chain, after);
    } else {
      MoreNotesSound(env.wallet, chain, m, after.mem.notes, given);
    }
    SaveSound(env, chain, after);
  }

  lemma PutKeeps(notes: seq<Entry>, n: SpendableNote, given: seq<SpendableNote>)
    requires WellKeyed(notes) && AllGiven(notes, given)
    ensures var after := Put(notes, ToDecimal(n.commitment), n);
            WellKeyed(after) && Keeps(notes, after) && AllGiven(after, given + [n])
  {
    var after := Put(notes, ToDecimal(n.commitment), n);
    PutWellKeyed(notes, n);
    PutDistinct(notes, ToDecimal(n.commitment), n);
    forall k | Has(notes, k)
      ensures Has(after, k)
    {
      PutHas(notes, ToDecimal(n.commitment), n, k);
    }
    forall i | 0 <= i < |after|
      ensures after[i].note in given + [n]
    {
      assert after[i] in after;
    }
  }

  lemma {:induction false} TakeAllSound(env: Setting, chain: seq<Tx>, m: Moment, events: seq<Event>)
    requires SoundAt(env.wallet, chain, m)
    ensures SoundAt(env.wallet, chain, TakeAll(env, m, events))
  {
    if events != [] {
      TakeAllSound(env, chain, m, events[..|events| - 1]);
      MutateSound(env, chain, TakeAll(env, m, events[..|events| - 1]), Ingest(events[|events| - 1]));
    }
  }

  /** Having been through the fetch step breaks no promise. */
  lemma SeenSound(wallet: Wallet, chain: seq<Tx>, m: Moment, sig: Sig, fetches: nat)
    requires SoundAt(wallet, chain, m)
    ensures SoundAt(wallet, chain, Seen(m, sig, fetches))
  {
  }

  /** Nor does having come back with logs, once their notes are in the map. */
  lemma FetchedSound(wallet: Wallet, chain: seq<Tx>, m: Moment, sig: Sig)
    requires SoundAt(wallet, chain, m) && sig < |chain| && Covered(wallet, chain[sig], m.mem.notes)
    ensures SoundAt(wallet, chain, Fetched(m, sig))
  {
  }

  /** Scanning beyond the cursor keeps every promise, that of the snapshots written on the way included. */
  lemma ScanSound(env: Setting, chain: seq<Tx>, m: Moment, sig: Sig)
    requires SoundAt(env.wallet, chain, m) && sig < |chain|
    ensures SoundAt(env.wallet, chain, Scan(env, chain, m, sig))
  {
    SeenSound(env.wallet, chain, m, sig, m.fetches);
    SeenSound(env.wallet, chain, m, sig, m.fetches + 1);
    if IsTried(chain, sig) && env.outcome(m.fetches) == Logs {
      var tried := Seen(m, sig, m.fetches + 1);
      TakeAllSound(env, chain, tried, chain[sig].events);
      TakeAllIs(env, tried, chain[sig].events);
      AbsorbCovers(env.wallet, m.mem.notes, chain[sig].events);
      FetchedSound(env.wallet, chain, TakeAll(env, tried, chain[sig].events), sig);
    }
  }

  lemma {:induction false} ScanAllSound(env: Setting, chain: seq<Tx>, m: Moment, visited: seq<Sig>)
    requires SoundAt(env.wallet, chain, m) && InChain(chain, visited)
    ensures SoundAt(env.wallet, chain, ScanAll(env, chain, m, visited))
  {
    if visited != [] {
      assert visited[|visited| - 1] < |chain|;
      ScanAllSound(env, chain, m, visited[..|visited| - 1]);
      ScanSound(env, chain, ScanAll(env, chain, m, visited[..|visited| - 1]), visited[|visited| - 1]);
    }
  }

  /** A cursor may move to any position below which nothing is unscanned. */
  lemma MoveCursorSound(wallet: Wallet, chain: seq<Tx>, m: Moment, cursor: Option<Sig>)
    requires SoundAt(wallet, chain, m)
    requires cursor.Some? ==> cursor.value < |chain| && forall s: nat :: s <= cursor.value ==> s in m.progress.scanned
    ensures SoundAt(wallet, chain, m.(mem := m.mem.(cursor := cursor)))
  {
  }

  // ----- Restarts -----

  /** The signatures at or older than a cursor. */
  function UpTo(fetched: seq<Sig>, cursor: Option<Sig>): seq<Sig> {
    if fetched == [] then []
    else
      UpTo(fetched[..|fetched| - 1], cursor)
      + if cursor.Some? && fetched[|fetched| - 1] <= cursor.value then [fetched[|fetched| - 1]] else []
  }

  lemma {:induction false} UpToIff(fetched: seq<Sig>, cursor: Option<Sig>, s: Sig)
    ensures s in UpTo(fetched, cursor) <==> s in fetched && cursor.Some? && s <= cursor.value
  {
    if fetched != [] {
      var front, last := fetched[..|fetched| - 1], fetched[|fetched| - 1];
      UpToIff(front, cursor, s);
      assert fetched == front + [last];
      assert s in fetched <==> s in front || s == last;
    }
  }

  /** What a restart still knows: everything scanned and given, and the fetches that the cursor answers for. */
  function Recovered(r: Record): Progress {
    r.progress.(fetched := UpTo(r.progress.fetched, r.mem.cursor))
  }

  lemma RecoveredSound(wallet: Wallet, chain: seq<Tx>, r: Record)
    requires Sound(wallet, chain, r.mem, r.progress)
    ensures Sound(wallet, chain, r.mem, Recovered(r))
    ensures FetchedCovered(wallet, chain, r.mem.notes, Recovered(r).fetched)
  {
    forall s: Sig
      ensures s in Recovered(r).fetched <==> s in r.progress.fetched && r.mem.cursor.Some? && s <= r.mem.cursor.value
    {
      UpToIff(r.progress.fetched, r.mem.cursor, s);
    }
    forall s | s in Recovered(r).fetched
      ensures s < |chain| && Covered(wallet, chain[s], r.mem.notes)
    {
      assert s in r.progress.scanned;
    }
  }

  lemma HydrateMissing(m: Memory)
    ensures Hydrated(m, Missing) == m
  {
  }

  /** What a new process hydrates from the last snapshot is sound. */
  lemma LastIsSound(wallet: Wallet, chain: seq<Tx>, m: Moment, file: File)
    requires SoundAt(wallet, chain, m) && m.journal != [] && file == Snapshot(m.journal[|m.journal| - 1].mem)
    ensures var last := m.journal[|m.journal| - 1];
            && Hydrated(EMPTY, file) == last.mem
            && SoundAt(wallet, chain, m.(mem := last.mem, progress := Recovered(last)))
  {
    var last := m.journal[|m.journal| - 1];
    HydrateSnapshot(last.mem);
    RecoveredSound(wallet, chain, last);
  }

  /**
   Crash safety: whichever snapshot a crash leaves, a new store hydrated from it holds each of the
   wallet's notes from every transaction at or older than the saved cursor whose logs were fetched; under
   its commitment is a note with that commitment which was inserted or claimed before.
   */
  lemma CrashSafe(wallet: Wallet, chain: seq<Tx>, journal: seq<Record>, k: nat, s: Sig, e: Event)
    requires JournalSound(wallet, chain, journal) && k < |journal|
    requires var saved := journal[k].mem.cursor; saved.Some? && s <= saved.value
    ensures Hydrated(EMPTY, Snapshot(journal[k].mem)) == journal[k].mem
    ensures s < |chain| && s in journal[k].progress.scanned
    ensures s in journal[k].progress.fetched && e in chain[s].events && wallet.Claim(e).Some? ==>
              exists entry :: entry in Hydrated(EMPTY, Snapshot(journal[k].mem)).notes
                              && entry.key == ToDecimal(e.commitment)
                              && entry.note.commitment == e.commitment && entry.note in journal[k].progress.given
  {
    HydrateSnapshot(journal[k].mem);
    assert Sound(wallet, chain, journal[k].mem, journal[k].progress);
    assert s in journal[k].progress.scanned;
    if s in journal[k].progress.fetched && e in chain[s].events && wallet.Claim(e).Some? {
      var notes := journal[k].mem.notes;
      assert Covered(wallet, chain[s], notes);
      var i :| 0 <= i < |notes| && notes[i].key == ToDecimal(e.commitment);
      DecimalInjective(notes[i].note.commitment, e.commitment);
      assert notes[i] in notes;
    }
  }
}
