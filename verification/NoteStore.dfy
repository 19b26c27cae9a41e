/**
 packages/sdk/src/note-store.ts: the note store over an RPC node whose history grows between calls and
 a disk whose writes may fail. Each method is tied to the functions of Scanning.
 */
module NoteStore {
  import opened NoteData
  import opened Paging
  import opened Scanning
  import opened TextCodec
  import opened Wrappers

  /** The node: an append-only history, and calls and fetches that may fail in any pattern. */
  class Rpc {
    /** Confirmed pool transactions, oldest first. */
    var chain: seq<Tx>
    var calls: nat
    var fetches: nat
    /** What is confirmed just before the n-th signatures call, and whether that call rejects. */
    const arrivals: nat -> seq<Tx>
    const rejects: nat -> bool
    /** The outcome of the n-th fetch. */
    const outcome: nat -> Outcome

    constructor (arrivals: nat -> seq<Tx>, rejects: nat -> bool, outcome: nat -> Outcome)
      ensures chain == [] && calls == 0 && fetches == 0
      ensures this.arrivals == arrivals && this.rejects == rejects && this.outcome == outcome
    {
      chain, calls, fetches := [], 0, 0;
      this.arrivals, this.rejects, this.outcome := arrivals, rejects, outcome;
    }

    /**
     getSignaturesForAddress: newest first, strictly between until and before, at most limit. None stands
     for a rejected call.
     */
    method GetSignatures(limit: nat, before: Option<Sig>, until: Option<Sig>) returns (r: Option<seq<Sig>>)
      modifies this`chain, this`calls
      ensures chain == old(chain) + arrivals(old(calls)) && calls == old(calls) + 1
      ensures r.None? <==> rejects(old(calls))
      ensures r.Some? ==> IsDown(r.value, Top(|chain|, before), PageSize(Top(|chain|, before), Floor(until), limit))
    {
      chain := chain + arrivals(calls);
      calls := calls + 1;
      if rejects(calls - 1) {
        return None;
      }
      var top := Top(|chain|, before);
      return Some(seq(PageSize(top, Floor(until), limit), i requires 0 <= i < top => top - 1 - i));
    }

    method GetTransaction() returns (o: Outcome)
      modifies this`fetches
      ensures o == outcome(old(fetches)) && fetches == old(fetches) + 1
    {
      o := outcome(fetches);
      fetches := fetches + 1;
    }
  }

  /** The snapshot file, replaced atomically or, when a write fails, not at all. */
  class Disk {
    var file: File
    var writes: nat
    const writeOk: nat -> bool
    /** Every snapshot ever written; a crash leaves the last one. */
    ghost var journal: seq<Record>

    ghost predicate Valid()
      reads this
    {
      file == FileOf(journal)
    }

    constructor (writeOk: nat -> bool)
      ensures Valid() && journal == [] && writes == 0 && this.writeOk == writeOk
    {
      file, writes, journal := Missing, 0, [];
      this.writeOk := writeOk;
    }

    method Write(m: Memory, ghost p: Progress)
      requires Valid()
      modifies this
      ensures Valid() && writes == old(writes) + 1
      ensures journal == old(journal) + if writeOk(old(writes)) then [Record(m, p)] else []
    {
      if writeOk(writes) {
        file := Snapshot(m);
        journal := journal + [Record(m, p)];
      }
      writes := writes + 1;
    }
  }

  /** The node of a run: what arrives before each call, and which calls are rejected. */
  datatype Node = Node(arrivals: nat -> seq<Tx>, rejects: nat -> bool)

  /** A store, the history and the number of signatures calls at one moment. */
  datatype Snap = Snap(m: Moment, chain: seq<Tx>, calls: nat)

  datatype BackfillResult = BackfillResult(tally: Tally, cursorAdvanced: bool, truncated: bool)

  class NoteStore {
    const wallet: Wallet
    const rpc: Rpc
    const disk: Disk
    /** A path was given and there is a file system. */
    const persists: bool
    var notes: seq<Entry>
    var spent: set<string>
    var cursor: Option<Sig>
    ghost var progress: Progress

    ghost function Mem(): Memory
      reads this
    {
      Memory(notes, spent, cursor)
    }

    ghost function Env(): Setting {
      Setting(wallet, persists, rpc.outcome, disk.writeOk)
    }

    ghost function Now(): Moment
      reads this, rpc, disk
    {
      Moment(Mem(), progress, rpc.fetches, disk.writes, disk.journal)
    }

    ghost function NodeOf(): Node {
      Node(rpc.arrivals, rpc.rejects)
    }

    ghost function At(): Snap
      reads this, rpc, disk
    {
      Snap(Now(), rpc.chain, rpc.calls)
    }

    /** What the cursor promises holds in memory and of every snapshot written. */
    ghost predicate Valid()
      reads this, rpc, disk
    {
      disk.Valid() && SoundAt(wallet, rpc.chain, Now())
    }

    /** A store of a new process, over whatever the last one left on disk. */
    constructor (wallet: Wallet, rpc: Rpc, disk: Disk, persists: bool)
      requires disk.Valid() && JournalSound(wallet, rpc.chain, disk.journal)
      ensures Valid() && Mem() == EMPTY && progress == Progress([], [], [])
      ensures this.wallet == wallet && this.rpc == rpc && this.disk == disk && this.persists == persists
    {
      this.wallet, this.rpc, this.disk, this.persists := wallet, rpc, disk, persists;
      notes, spent, cursor := [], {}, None;
      progress := Progress([], [], []);
    }

    /** _hydrate: takes over whatever the file holds, up to the first note that cannot be read. */
    method Hydrate()
      modifies this`notes, this`spent, this`cursor
      ensures Mem() == if persists then Hydrated(old(Mem()), disk.file) else old(Mem())
      ensures !persists || !disk.file.Json? || disk.file.v < 1 || disk.file.v > 2 ==> Mem() == old(Mem())
      ensures persists && disk.file.Json? && 1 <= disk.file.v <= 2 ==>
                var (restored, complete) := ReadNotes(ReadNote, old(notes), disk.file.notes);
                && notes == restored && spent == old(spent) + (if complete then disk.file.spent else {})
                && cursor == if complete && disk.file.v == 2 then disk.file.cursor else old(cursor)
    {
      if !persists || !disk.file.Json? || (disk.file.v != 1 && disk.file.v != 2) {
        return;
      }
      var complete;
      notes, complete := RestoreNotes(ReadNote, notes, disk.file.notes);
      if complete {
        spent := spent + disk.file.spent;
        if disk.file.v == 2 {
          cursor := disk.file.cursor;
        }
      }
    }

    /** start: a fresh store hydrates from the file; what this program wrote it takes over exactly, and soundly. */
    method Start()
      requires Valid() && Mem() == EMPTY && progress == Progress([], [], [])
      modifies this
      ensures Valid()
      ensures Mem() == if persists then Hydrated(EMPTY, disk.file) else EMPTY
      ensures persists && disk.journal != [] ==>
                var last := disk.journal[|disk.journal| - 1];
                Mem() == last.mem && progress == Recovered(last)
    {
      ghost var now := Now();
      Hydrate();
      if disk.journal == [] {
        HydrateMissing(EMPTY);
      } else if persists {
        ghost var last := disk.journal[|disk.journal| - 1];
        LastIsSound(wallet, rpc.chain, now, disk.file);
        progress := Recovered(last);
        assert Now() == now.(mem := last.mem, progress := Recovered(last));
      }
    }

    /** _persist: best effort; a failed write changes nothing and is not reported. */
    method Persist()
      requires disk.Valid()
      modifies disk
      ensures disk.Valid() && Now() == Save(Env(), old(Now()))
      ensures disk.writes == old(disk.writes) + if persists then 1 else 0
      ensures disk.file == if persists && disk.writeOk(old(disk.writes)) then Snapshot(Mem()) else old(disk.file)
    {
      if persists {
        disk.Write(Memory(notes, spent, cursor), progress);
      }
    }

    method MarkSpent(nullifier: nat)
      requires Valid()
      modifies this`spent, this`progress, disk
      ensures Valid() && Now() == Mutate(Env(), old(Now()), Mark(nullifier))
      ensures spent == old(spent) + {ToDecimal(nullifier)}
      ensures disk.writes == old(disk.writes) + if persists then 1 else 0
      ensures disk.file == if persists && disk.writeOk(old(disk.writes)) then Snapshot(Mem()) else old(disk.file)
    {
      MutateSound(Env(), rpc.chain, Now(), Mark(nullifier));
      progress := progress.(given := progress.given + GivenBy(wallet, Mark(nullifier)));
      spent := spent + {ToDecimal(nullifier)};
      Persist();
    }

    /** insertNote replaces the note under its commitment if there is one already. */
    method InsertNote(note: SpendableNote)
      requires Valid()
      modifies this`notes, this`progress, disk
      ensures Valid() && Now() == Mutate(Env(), old(Now()), Insert(note))
      ensures notes == Put(old(notes), ToDecimal(note.commitment), note)
      ensures disk.writes == old(disk.writes) + if persists then 1 else 0
      ensures disk.file == if persists && disk.writeOk(old(disk.writes)) then Snapshot(Mem()) else old(disk.file)
    {
      MutateSound(Env(), rpc.chain, Now(), Insert(note));
      progress := progress.(given := progress.given + GivenBy(wallet, Insert(note)));
      notes := Put(notes, ToDecimal(note.commitment), note);
      Persist();
    }

    /**
     ingestCommitment: takes in an event that decrypts to a note with its commitment and this wallet's key,
     and leaves everything as it is otherwise.
     */
    method IngestCommitment(e: Event) returns (ok: bool)
      requires disk.Valid()
      modifies this`notes, this`progress, disk
      ensures disk.Valid() && Now() == Mutate(Env(), old(Now()), Ingest(e))
      ensures var plain := wallet.decrypt(e.encrypted, e.leafIndex, wallet.spendingPub);
              && (ok <==> plain.Some? && wallet.commit(plain.value) == e.commitment && plain.value.spendingPub == wallet.spendingPub)
              && notes == if ok then
                            Put(old(notes), ToDecimal(e.commitment),
                                SpendableNote(plain.value, wallet.spendingPriv, e.commitment, e.leafIndex, e.encrypted))
                          else old(notes)
      ensures disk.writes == old(disk.writes) + if ok && persists then 1 else 0
      ensures disk.file == if ok && persists && disk.writeOk(old(disk.writes)) then Snapshot(Mem()) else old(disk.file)
      ensures old(Valid()) ==> Valid()
    {
      ghost var before := Now();
      if SoundAt(wallet, rpc.chain, before) {
        MutateSound(Env(), rpc.chain, before, Ingest(e));
      }
      progress := progress.(given := progress.given + GivenBy(wallet, Ingest(e)));
      var plain := wallet.decrypt(e.encrypted, e.leafIndex, wallet.spendingPub);
      if plain.None? {
        return false;
      }
      if wallet.commit(plain.value) != e.commitment {
        return false;
      }
      if plain.value.spendingPub != wallet.spendingPub {
        return false;
      }
      var note := SpendableNote(plain.value, wallet.spendingPriv, e.commitment, e.leafIndex, e.encrypted);
      notes := Put(notes, ToDecimal(e.commitment), note);
      Persist();
      return true;
    }

    /** getSpendable and getAllSpendable */
    method GetSpendable(mint: Option<nat>) returns (out: seq<SpendableNote>)
      ensures out == Spendable(notes, spent, mint)
    {
      out := [];
      for i := 0 to |notes|
        invariant out == Spendable(notes[..i], spent, mint)
      {
        assert notes[..i + 1][..i] == notes[..i];
        var n := notes[i].note;
        if (mint.None? || n.plain.tokenMint == mint.value) && ToDecimal(n.commitment) !in spent {
          out := out + [n];
        }
      }
      assert notes[..|notes|] == notes;
    }

    /** getSpendableSince: the spendable notes above a leaf index, in ascending order. */
    method GetSpendableSince(sinceLeafIndex: int, mint: Option<nat>) returns (out: seq<SpendableNote>)
      ensures out == SortByLeaf(Fresh(notes, spent, mint, sinceLeafIndex))
    {
      out := [];
      for i := 0 to |notes|
        invariant out == Fresh(notes[..i], spent, mint, sinceLeafIndex)
      {
        assert notes[..i + 1][..i] == notes[..i];
        var n := notes[i].note;
        if ToDecimal(n.commitment) !in spent && n.leafIndex > sinceLeafIndex
           && (mint.None? || n.plain.tokenMint == mint.value) {
          out := out + [n];
        }
      }
      assert notes[..|notes|] == notes;
      out := SortByLeaf(out);
    }

    /**
     One signature of a batch: a failed transaction is not fetched, a rejected fetch is skipped, and
     the events of a fetched one are taken in, in order.
     */
    method ProcessTx(sig: Sig) returns (t: Tally)
      requires disk.Valid() && sig < |rpc.chain|
      modifies this`notes, this`progress, disk, rpc`fetches
      ensures disk.Valid() && Now() == Scan(Env(), rpc.chain, old(Now()), sig)
      ensures var tx, fetch := rpc.chain[sig], old(rpc.fetches);
              var read := !tx.failed && rpc.outcome(fetch) == Logs;
              && rpc.fetches == fetch + (if tx.failed then 0 else 1)
              && notes == (if read then Absorb(wallet, old(notes), tx.events) else old(notes))
              && |notes| >= |old(notes)| && t == Tally(1, if read then |tx.events| else 0, |notes| - |old(notes)|)
    {
      ghost var m := Now();
      ScanSteps(Env(), rpc.chain, m, sig);
      TakeAllIs(Env(), Seen(m, sig, m.fetches + 1), rpc.chain[sig].events);
      t := Tally(1, 0, 0);
      progress := progress.(scanned := progress.scanned + [sig]);
      if rpc.chain[sig].failed {
        assert Now() == Seen(m, sig, m.fetches);
        return;
      }
      var outcome := rpc.GetTransaction();
      assert Now() == Seen(m, sig, m.fetches + 1);
      if outcome != Logs {
        return;
      }
      var seen, ingested := TakeEvents(rpc.chain[sig].events);
      ghost var taken := Now();
      progress := progress.(fetched := progress.fetched + [sig]);
      assert Now() == Fetched(taken, sig);
      t := Tally(1, seen, ingested);
    }

    /** The events of one transaction, in log order. */
    method TakeEvents(events: seq<Event>) returns (eventsSeen: nat, ingested: nat)
      requires disk.Valid()
      modifies this`notes, this`progress, disk
      ensures disk.Valid() && Now() == TakeAll(Env(), old(Now()), events)
      ensures eventsSeen == |events| && |notes| == |old(notes)| + ingested
    {
      eventsSeen, ingested := 0, 0;
      for i := 0 to |events|
        invariant disk.Valid() && Now() == TakeAll(Env(), old(Now()), events[..i])
        invariant eventsSeen == i && |notes| == |old(notes)| + ingested
      {
        assert events[..i + 1][..i] == events[..i];
        eventsSeen := eventsSeen + 1;
        var ok := TakeEvent(events[i]);
        if ok {
          ingested := ingested + 1;
        }
      }
      assert events[..|events|] == events;
    }

    method TakeEvent(e: Event) returns (ok: bool)
      requires disk.Valid()
      modifies this`notes, this`progress, disk
      ensures disk.Valid() && Now() == Take(Env(), old(Now()), e)
      ensures |notes| == |old(notes)| + if ok then 1 else 0
    {
      ok := false;
      if !Has(notes, ToDecimal(e.commitment)) {
        if wallet.Claim(e).Some? {
          PutHas(notes, ToDecimal(e.commitment), wallet.Claim(e).value, "");
        }
        ok := IngestCommitment(e);
      }
    }

    /** One page, newest first. */
    method ProcessPage(sigs: seq<Sig>) returns (t: Tally)
      requires disk.Valid() && InChain(rpc.chain, sigs)
      modifies this`notes, this`progress, disk, rpc`fetches
      ensures disk.Valid() && Now() == ScanAll(Env(), rpc.chain, old(Now()), sigs)
      ensures t == TallyOf(Env(), rpc.chain, old(Now()), sigs, Now())
    {
      t := Tally(0, 0, 0);
      ghost var env, chain, start := Env(), rpc.chain, Now();
      assert sigs[..0] == [];
      for i := 0 to |sigs|
        invariant disk.Valid() && Now() == ScanAll(env, chain, start, sigs[..i])
        invariant t == TallyOf(env, chain, start, sigs[..i], Now())
      {
        ghost var now := Now();
        var u := ProcessTx(sigs[i]);
        ScanNext(env, chain, start, sigs, i, now, Now());
        t := Tally(t.txsScanned + u.txsScanned, t.eventsSeen + u.eventsSeen, t.notesIngested + u.notesIngested);
      }
      assert sigs[..|sigs|] == sigs;
    }

    /**
     The paging loop of backfill: newest first, from before or the head down to the cursor, each page
     starting below the oldest signature of the last, at most ten pages. A rejected call ends it.
     */
    method WalkPages(limit: nat, before: Option<Sig>, ghost high: nat)
      returns (end: Ending, t: Tally, ghost visited: seq<Sig>)
      requires disk.Valid()
      requires high == Top(|rpc.chain| + |rpc.arrivals(rpc.calls)|, before)
      modifies this`notes, this`progress, rpc, disk
      ensures disk.Valid() && Walked(Env(), NodeOf(), end, t, visited, limit, high, old(At()), At())
    {
      var done, page, older, newest := None, 0, before, None;
      t, visited := Tally(0, 0, 0), [];
      ghost var env, node, start := Env(), NodeOf(), At();
      WalkStarts(env, node, limit, before, high, start);
      while done.None?
        invariant disk.Valid() && (done.None? ==> page < MAX_PAGES)
        invariant GoesOn(env, node, done, Walk(page, older, newest, visited), t, limit, before, high, start, At())
        decreases done.None?, MAX_PAGES - page
      {
        done, t, older, newest, visited := NextPage(limit, page, t, older, newest, before, high, start, visited);
        page := page + 1;
      }
      WalkOver(env, node, done, Walk(page, older, newest, visited), t, limit, before, high, start, At());
      end := done.value;
    }

    /** One round of the paging loop; a rejected call leaves the walk where it was. */
    method NextPage(limit: nat, page: nat, t: Tally, older: Option<Sig>, newest: Option<Sig>, ghost before: Option<Sig>,
                    ghost high: nat, ghost start: Snap, ghost visited: seq<Sig>)
      returns (done: Option<Ending>, t': Tally, older': Option<Sig>, newest': Option<Sig>, ghost visited': seq<Sig>)
      requires page < MAX_PAGES && disk.Valid()
      requires Walking(Env(), NodeOf(), Walk(page, older, newest, visited), t, limit, before, high, start, At())
      modifies this`notes, this`progress, rpc, disk
      ensures disk.Valid() && (done.None? ==> page + 1 < MAX_PAGES)
      ensures GoesOn(Env(), NodeOf(), done, Walk(page + 1, older', newest', visited'), t', limit, before, high, start, At())
    {
      ghost var w, a := Walk(page, older, newest, visited), At();
      WalkingInChain(Env(), NodeOf(), w, t, limit, before, high, start, a);
      var sigs;
      sigs, t' := FetchPage(limit, older, t, start.m, visited);
      PageTop(Env(), NodeOf(), w, t, limit, before, high, start, a, sigs, t', At());
      done, older', newest', visited' := TurnPage(limit, sigs, page, older, newest, before, high, cursor, |rpc.chain|, visited);
      PageTurned(Env(), NodeOf(), w, t, limit, before, high, start, a, sigs, t', At(),
                 done, Walk(page + 1, older', newest', visited'));
    }

    /** One page: the signatures call, then its signatures past the wallet. */
    method FetchPage(limit: nat, before: Option<Sig>, t: Tally, ghost start: Moment, ghost visited: seq<Sig>)
      returns (r: Option<seq<Sig>>, t': Tally)
      requires disk.Valid() && InChain(rpc.chain, visited)
      requires Now() == ScanAll(Env(), rpc.chain, start, visited)
      requires t == TallyOf(Env(), rpc.chain, start, visited, Now())
      modifies this`notes, this`progress, rpc, disk
      ensures disk.Valid() && PageFetched(Env(), NodeOf(), limit, before, start, visited, old(At()), r, t', At())
    {
      ghost var a := At();
      r := rpc.GetSignatures(limit, before, cursor);
      var u := Tally(0, 0, 0);
      if r.Some? {
        u := ProcessPage(r.value);
      }
      t' := Tally(t.txsScanned + u.txsScanned, t.eventsSeen + u.eventsSeen, t.notesIngested + u.notesIngested);
      PageCounts(Env(), NodeOf(), limit, before, start, visited, a, r, t, u, At());
    }

    /**
     backfill: walks the pages, then moves the cursor if the range was walked to its end. None stands for
     the error of a rejected call, with what was scanned before it kept. high is the position just above
     the first signature it saw, visited the signatures it scanned.
     */
    method Backfill(limit: nat, before: Option<Sig>, genesis: bool)
      returns (r: Option<BackfillResult>, ghost high: nat, ghost visited: seq<Sig>)
      requires Valid()
      modifies this`notes, this`cursor, this`progress, rpc, disk
      ensures Valid() && old(rpc.chain) <= rpc.chain
      ensures high == Top(|old(rpc.chain)| + |rpc.arrivals(old(rpc.calls))|, before) <= |rpc.chain|
      ensures Backfilled(Env(), NodeOf(), r, visited, limit, high, From(old(At()), if genesis then None else old(cursor)), At())
      ensures forall i {:trigger visited[i]} :: 0 <= i < |visited| ==> visited[i] == high - 1 - i
      ensures var floor := if genesis || old(cursor).None? then 0 else old(cursor).value + 1;
              match r
              case None => visited != [] ==> high - |visited| >= floor
              case Some(result) =>
                && (result.truncated <==> limit > 0 && high - floor >= 10 * limit)
                && |visited| == if limit == 0 || high <= floor then 0 else if result.truncated then 10 * limit else high - floor
      ensures cursor == if r.Some? && !r.value.truncated && visited != [] then Some(high - 1)
                        else if genesis then None else old(cursor)
      ensures r.Some? ==> r.value.tally.txsScanned == |visited| && |notes| == |old(notes)| + r.value.tally.notesIngested
      ensures r.Some? && r.value.cursorAdvanced && persists ==>
                disk.writes > 0 && (disk.writeOk(disk.writes - 1) ==> disk.file == Snapshot(Mem()))
    {
      high := Top(|rpc.chain| + |rpc.arrivals(rpc.calls)|, before);
      if genesis {
        cursor := None;
      }
      ghost var start := At();
      CursorlessSound(wallet, old(At()));
      assert start == From(old(At()), if genesis then None else old(cursor));
      var end, tally;
      end, tally, visited := WalkPages(limit, before, high);
      r := Conclude(end, tally, visited, limit, high, start);
      RangeOf(Env(), NodeOf(), r, visited, limit, high, start, At());
    }

    /** What backfill does after its loop. */
    method Conclude(end: Ending, tally: Tally, ghost visited: seq<Sig>, ghost limit: nat, ghost high: nat, ghost start: Snap)
      returns (r: Option<BackfillResult>)
      requires SoundAt(wallet, start.chain, start.m) && disk.Valid()
      requires Walked(Env(), NodeOf(), end, tally, visited, limit, high, start, At())
      modifies this`cursor, disk
      ensures Valid() && Backfilled(Env(), NodeOf(), r, visited, limit, high, start, At())
      ensures r.Some? && r.value.cursorAdvanced && persists ==>
                disk.writes > 0 && (disk.writeOk(disk.writes - 1) ==> disk.file == Snapshot(Mem()))
    {
      ghost var now := At();
      WalkSound(Env(), start.chain, rpc.chain, start.m, visited, end.rejected, high, limit, end.newest, end.truncated);
      if end.rejected {
        Stopped(Env(), NodeOf(), end, tally, visited, limit, high, start, now);
        return None;
      }
      var advanced := end.newest.Some? && !end.truncated && end.newest != cursor;
      if advanced {
        MoveCursor(end.newest);
      }
      Concluded(Env(), NodeOf(), end, tally, visited, limit, high, start, now, advanced, At());
      r := Some(BackfillResult(tally, advanced, end.truncated));
    }

    /** The last step of a backfill that reached its end. */
    method MoveCursor(newest: Option<Sig>)
      requires newest.Some? && disk.Valid()
      requires SoundAt(wallet, rpc.chain, Now().(mem := Mem().(cursor := newest)))
      modifies this`cursor, disk
      ensures Valid() && Now() == Moved(Env(), old(Now()), newest)
      ensures persists ==> disk.writes > 0 && (disk.writeOk(disk.writes - 1) ==> disk.file == Snapshot(Mem()))
    {
      cursor := newest;
      SaveSound(Env(), rpc.chain, Now());
      Persist();
    }
  }

  /** The loop of _hydrate over the notes of a file. */
  method RestoreNotes(read: PersistedNote -> Option<SpendableNote>, into: seq<Entry>, saved: seq<PersistedNote>)
    returns (notes: seq<Entry>, complete: bool)
    ensures (notes, complete) == ReadNotes(read, into, saved)
  {
    notes := into;
    assert saved[0..] == saved;
    for i := 0 to |saved|
      invariant ReadNotes(read, into, saved) == ReadNotes(read, notes, saved[i..])
    {
      assert saved[i..][1..] == saved[i + 1..];
      match read(saved[i])
      case None =>
        return notes, false;
      case Some(note) =>
        notes := Put(notes, saved[i].commitment, note);
    }
    complete := true;
  }

  /** A store whose cursor stands elsewhere. */
  function From(s: Snap, cursor: Option<Sig>): Snap {
    s.(m := s.m.(mem := s.m.mem.(cursor := cursor)))
  }

  lemma CursorlessSound(wallet: Wallet, s: Snap)
    requires SoundAt(wallet, s.chain, s.m)
    ensures SoundAt(wallet, s.chain, From(s, None).m)
  {
  }

  // ----- The walk of one backfill -----

  /** Before page number w.page of a walk that began at start. */
  ghost predicate Walking(env: Setting, node: Node, w: Walk, t: Tally, limit: nat, before: Option<Sig>, high: nat, start: Snap, now: Snap) {
    match w
    case Walk(page, _, _, visited) =>
      && start.chain <= now.chain && now.calls == start.calls + page
      && now.m.mem.cursor == start.m.mem.cursor && WalkAt(high, Floor(start.m.mem.cursor), limit, before, w)
      && (if page == 0 then now.chain == start.chain && high == Top(|start.chain| + |node.arrivals(start.calls)|, before)
          else high <= |now.chain|)
      && now.m == ScanAll(env, now.chain, start.m, visited)
      && t == TallyOf(env, now.chain, start.m, visited, now.m)
  }

  /** After its last page, or the call that was rejected. */
  ghost predicate Walked(env: Setting, node: Node, end: Ending, t: Tally, visited: seq<Sig>, limit: nat, high: nat, start: Snap, now: Snap) {
    match end
    case Ending(newest, truncated, rejected) =>
      && start.chain <= now.chain && high <= |now.chain|
      && now.m.mem.cursor == start.m.mem.cursor
      && WalkGoes(rejected, high, Floor(start.m.mem.cursor), limit, newest, visited, truncated)
      && now.calls > start.calls && (rejected <==> node.rejects(now.calls - 1))
      && (rejected ==> IsPages(visited, limit, now.calls - 1 - start.calls))
      && now.m == ScanAll(env, now.chain, start.m, visited)
      && t == TallyOf(env, now.chain, start.m, visited, now.m)
  }

  /** Between two pages, or after the last one. */
  ghost predicate GoesOn(env: Setting, node: Node, done: Option<Ending>, w: Walk, t: Tally, limit: nat, before: Option<Sig>, high: nat,
                         start: Snap, now: Snap) {
    match done
    case None => w.page < MAX_PAGES && Walking(env, node, w, t, limit, before, high, start, now)
    case Some(end) => Walked(env, node, end, t, w.visited, limit, high, start, now)
  }

  lemma WalkOver(env: Setting, node: Node, done: Option<Ending>, w: Walk, t: Tally, limit: nat, before: Option<Sig>, high: nat,
                 start: Snap, now: Snap)
    requires GoesOn(env, node, done, w, t, limit, before, high, start, now) && done.Some?
    ensures Walked(env, node, done.value, t, w.visited, limit, high, start, now)
  {
  }

  lemma WalkStarts(env: Setting, node: Node, limit: nat, before: Option<Sig>, high: nat, start: Snap)
    requires high == Top(|start.chain| + |node.arrivals(start.calls)|, before)
    ensures GoesOn(env, node, None, Walk(0, before, None, []), Tally(0, 0, 0), limit, before, high, start, start)
  {
  }

  /** What a signatures call and the batch of what it answers make of a scan, from a to b. */
  ghost predicate PageFetched(env: Setting, node: Node, limit: nat, before: Option<Sig>, start: Moment, visited: seq<Sig>,
                              a: Snap, r: Option<seq<Sig>>, t: Tally, b: Snap) {
    && b.chain == a.chain + node.arrivals(a.calls) && b.calls == a.calls + 1
    && b.m.mem.cursor == a.m.mem.cursor
    && match r
       case None =>
         node.rejects(a.calls) && b.m == ScanAll(env, b.chain, start, visited) && t == TallyOf(env, b.chain, start, visited, b.m)
       case Some(sigs) =>
         && !node.rejects(a.calls)
         && IsDown(sigs, Top(|b.chain|, before), PageSize(Top(|b.chain|, before), Floor(a.m.mem.cursor), limit))
         && b.m == ScanAll(env, b.chain, start, visited + sigs) && t == TallyOf(env, b.chain, start, visited + sigs, b.m)
  }

  /** A page is scanned from where the last one ended, and its counters are added. */
  lemma PageCounts(env: Setting, node: Node, limit: nat, before: Option<Sig>, start: Moment, visited: seq<Sig>,
                   a: Snap, r: Option<seq<Sig>>, t: Tally, u: Tally, b: Snap)
    requires InChain(a.chain, visited) && a.m == ScanAll(env, a.chain, start, visited)
    requires t == TallyOf(env, a.chain, start, visited, a.m)
    requires b.chain == a.chain + node.arrivals(a.calls) && b.calls == a.calls + 1 && b.m.mem.cursor == a.m.mem.cursor
    requires match r
             case None => node.rejects(a.calls) && b.m == a.m && u == Tally(0, 0, 0)
             case Some(sigs) =>
               && !node.rejects(a.calls)
               && IsDown(sigs, Top(|b.chain|, before), PageSize(Top(|b.chain|, before), Floor(a.m.mem.cursor), limit))
               && b.m == ScanAll(env, b.chain, a.m, sigs) && u == TallyOf(env, b.chain, a.m, sigs, b.m)
    ensures PageFetched(env, node, limit, before, start, visited, a, r,
                        Tally(t.txsScanned + u.txsScanned, t.eventsSeen + u.eventsSeen, t.notesIngested + u.notesIngested), b)
  {
    SameScanOnLongerChain(env, a.chain, node.arrivals(a.calls), start, visited);
    SameOnLongerChain(a.chain, node.arrivals(a.calls), env.outcome, start.fetches, visited);
    if r.Some? {
      TallyMore(env, b.chain, start, visited, r.value, a.m, b.m);
    }
  }

  lemma WalkingInChain(env: Setting, node: Node, w: Walk, t: Tally, limit: nat, before: Option<Sig>, high: nat, start: Snap, a: Snap)
    requires Walking(env, node, w, t, limit, before, high, start, a)
    ensures InChain(a.chain, w.visited)
    ensures a.m == ScanAll(env, a.chain, start.m, w.visited) && t == TallyOf(env, a.chain, start.m, w.visited, a.m)
  {
  }

  lemma PageTop(env: Setting, node: Node, w: Walk, t: Tally, limit: nat, before: Option<Sig>, high: nat, start: Snap, a: Snap,
                sigs: Option<seq<Sig>>, t': Tally, b: Snap)
    requires Walking(env, node, w, t, limit, before, high, start, a)
    requires PageFetched(env, node, limit, w.older, start.m, w.visited, a, sigs, t', b)
    ensures WalkAt(high, Floor(b.m.mem.cursor), limit, before, w)
    ensures high <= |b.chain| && (w.page == 0 ==> Top(|b.chain|, before) == high)
    ensures sigs.Some? ==>
              IsDown(sigs.value, Top(|b.chain|, w.older), PageSize(Top(|b.chain|, w.older), Floor(b.m.mem.cursor), limit))
  {
  }

  /** Whatever turning the page says of the signatures holds of the walk. */
  lemma PageTurned(env: Setting, node: Node, w: Walk, t: Tally, limit: nat, before: Option<Sig>, high: nat, start: Snap, a: Snap,
                   sigs: Option<seq<Sig>>, t': Tally, b: Snap, done: Option<Ending>, next: Walk)
    requires Walking(env, node, w, t, limit, before, high, start, a) && high <= |b.chain|
    requires PageFetched(env, node, limit, w.older, start.m, w.visited, a, sigs, t', b)
    requires Turned(high, b.m.mem.cursor, limit, before, w.page, w.visited, sigs, done, next)
    ensures GoesOn(env, node, done, next, t', limit, before, high, start, b) && (done.None? ==> next.page < MAX_PAGES)
  {
    match done
    case None =>
    case Some(end) =>
  }

  /** What a completed walk comes to, once the cursor has moved if it should. */
  lemma Concluded(env: Setting, node: Node, end: Ending, t: Tally, visited: seq<Sig>, limit: nat, high: nat, start: Snap, now: Snap,
                  advanced: bool, after: Snap)
    requires Walked(env, node, end, t, visited, limit, high, start, now) && !end.rejected
    requires advanced <==> end.newest.Some? && !end.truncated
    requires after == now.(m := Moved(env, now.m, if advanced then end.newest else None))
    ensures Backfilled(env, node, Some(BackfillResult(t, advanced, end.truncated)), visited, limit, high, start, after)
  {
  }

  lemma Stopped(env: Setting, node: Node, end: Ending, t: Tally, visited: seq<Sig>, limit: nat, high: nat, start: Snap, now: Snap)
    requires Walked(env, node, end, t, visited, limit, high, start, now) && end.rejected
    ensures Backfilled(env, node, None, visited, limit, high, start, now)
  {
  }

  /**
   After a backfill that began at start: the range it scanned, which before a rejected call is what the
   calls before it answered, exactly what that leaves in memory and on disk, and what it reports.
   */
  ghost predicate Backfilled(env: Setting, node: Node, r: Option<BackfillResult>, visited: seq<Sig>, limit: nat, high: nat,
                             start: Snap, now: Snap)
  {
    match r
    case None =>
      && now.calls > start.calls && node.rejects(now.calls - 1)
      && IsPages(visited, limit, now.calls - 1 - start.calls)
      && WalkStops(high, Floor(start.m.mem.cursor), limit, visited)
      && now.m == ScanAll(env, now.chain, start.m, visited)
    case Some(BackfillResult(tally, cursorAdvanced, truncated)) =>
      && now.calls > start.calls && !node.rejects(now.calls - 1)
      && WalkEnds(high, Floor(start.m.mem.cursor), limit, if visited == [] then None else Below(high), visited, truncated)
      && tally == TallyOf(env, now.chain, start.m, visited, now.m)
      && (cursorAdvanced <==> visited != [] && !truncated)
      && now.m == Moved(env, ScanAll(env, now.chain, start.m, visited), if cursorAdvanced then Below(high) else None)
  }

  /** That range, cursor and count in plain terms. */
  lemma RangeOf(env: Setting, node: Node, r: Option<BackfillResult>, visited: seq<Sig>, limit: nat, high: nat, start: Snap, now: Snap)
    requires Backfilled(env, node, r, visited, limit, high, start, now)
    ensures forall i {:trigger visited[i]} :: 0 <= i < |visited| ==> visited[i] == high - 1 - i
    ensures var floor := if start.m.mem.cursor.None? then 0 else start.m.mem.cursor.value + 1;
            match r
            case None => visited != [] ==> high - |visited| >= floor
            case Some(result) =>
              && (result.truncated <==> limit > 0 && high - floor >= 10 * limit)
              && |visited| == if limit == 0 || high <= floor then 0 else if result.truncated then 10 * limit else high - floor
    ensures now.m.mem.cursor == if r.Some? && !r.value.truncated && visited != [] then Some(high - 1) else start.m.mem.cursor
    ensures r.Some? ==>
              && r.value.tally.txsScanned == |visited|
              && |now.m.mem.notes| == |start.m.mem.notes| + r.value.tally.notesIngested
  {
    CutShortIff(high, Floor(start.m.mem.cursor), limit);
    FullIsProduct(limit, MAX_PAGES);
    ScanAllIs(env, now.chain, start.m, visited);
  }

  /** A walk breaks no promise, and one that was not cut short leaves nothing unscanned below its newest signature. */
  lemma WalkSound(env: Setting, chain: seq<Tx>, later: seq<Tx>, start: Moment, visited: seq<Sig>, rejected: bool,
                  high: nat, limit: nat, newest: Option<Sig>, truncated: bool)
    requires SoundAt(env.wallet, chain, start) && chain <= later && high <= |later|
    requires WalkGoes(rejected, high, Floor(start.mem.cursor), limit, newest, visited, truncated)
    ensures var m := ScanAll(env, later, start, visited);
            && SoundAt(env.wallet, later, m)
            && m.mem.cursor == start.mem.cursor
            && (!rejected && !truncated && newest.Some? ==>
                  newest != m.mem.cursor && SoundAt(env.wallet, later, m.(mem := m.mem.(cursor := newest))))
  {
    assert later == chain + later[|chain|..];
    SoundOnLongerChain(env.wallet, chain, later[|chain|..], start);
    ScanAllSound(env, later, start, visited);
    ScanAllIs(env, later, start, visited);
    var m := ScanAll(env, later, start, visited);
    if !rejected && !truncated && newest.Some? {
      forall s: nat | s <= newest.value
        ensures s in m.progress.scanned
      {
        if s >= Floor(start.mem.cursor) {
          assert visited[high - 1 - s] == s;
        }
      }
      MoveCursorSound(env.wallet, later, m, newest);
    }
  }
}
