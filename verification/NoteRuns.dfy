/**
 The note store over whole runs: inserts, ingests and spends in any order, with restarts in between and
 writes that may fail.
 */
module NoteRuns {
  import opened NoteData
  import opened TextCodec
  import opened Wrappers

  /** A mutation whose write succeeds or fails, or the end of the process and a fresh start. */
  datatype RunStep = Do(op: Op, written: bool) | Restart

  /** What survives: the memory of the running process and the snapshot file. */
  datatype World = World(mem: Memory, file: File)

  const FIRST_RUN := World(EMPTY, Missing)

  function Step(wallet: Wallet, w: World, e: RunStep): World {
    match e
    case Do(op, written) =>
      var m := Apply(wallet, w.mem, op);
      World(m, if Writes(wallet, op) && written then Snapshot(m) else w.file)
    case Restart => World(Hydrated(EMPTY, w.file), w.file)
  }

  function Run(wallet: Wallet, run: seq<RunStep>): World {
    if run == [] then FIRST_RUN else Step(wallet, Run(wallet, run[..|run| - 1]), run[|run| - 1])
  }

  /** The mutations that count: those since the last restart, and before it those that reached the disk. */
  datatype History = History(live: seq<Op>, saved: seq<Op>)

  function Remember(wallet: Wallet, h: History, e: RunStep): History {
    match e
    case Do(op, written) =>
      var live := h.live + [op];
      History(live, if Writes(wallet, op) && written then live else h.saved)
    case Restart => History(h.saved, h.saved)
  }

  function Recall(wallet: Wallet, run: seq<RunStep>): (h: History)
    ensures h.saved <= h.live
  {
    if run == [] then History([], []) else Remember(wallet, Recall(wallet, run[..|run| - 1]), run[|run| - 1])
  }

  function Replay(wallet: Wallet, ops: seq<Op>): Memory {
    if ops == [] then EMPTY else Apply(wallet, Replay(wallet, ops[..|ops| - 1]), ops[|ops| - 1])
  }

  lemma {:induction false} ReplayWellKeyed(wallet: Wallet, ops: seq<Op>)
    ensures WellKeyed(Replay(wallet, ops).notes)
  {
    if ops != [] {
      var before, op := ops[..|ops| - 1], ops[|ops| - 1];
      ReplayWellKeyed(wallet, before);
      match op
      case Insert(n) => PutWellKeyed(Replay(wallet, before).notes, n);
      case Ingest(e) =>
        if wallet.Claim(e).Some? {
          PutWellKeyed(Replay(wallet, before).notes, wallet.Claim(e).value);
        }
      case Mark(_) =>
    }
  }

  /** The process and the file always hold the replay of the mutations that count for them. */
  lemma {:induction false} RunIsReplay(wallet: Wallet, run: seq<RunStep>)
    ensures var w, h := Run(wallet, run), Recall(wallet, run);
            && w.mem == Replay(wallet, h.live)
            && (w.file == Snapshot(Replay(wallet, h.saved)) || (w.file == Missing && h.saved == []))
  {
    if run != [] {
      var before, e := run[..|run| - 1], run[|run| - 1];
      RunIsReplay(wallet, before);
      var h := Recall(wallet, before);
      match e
      case Do(op, _) => assert (h.live + [op])[..|h.live|] == h.live;
      case Restart =>
        ReplayWellKeyed(wallet, h.saved);
        HydrateSnapshot(Replay(wallet, h.saved));
    }
  }

  // ----- Which notes are spendable -----

  /** The commitments that mutations bring in. */
  function Added(wallet: Wallet, ops: seq<Op>): set<nat> {
    if ops == [] then {}
    else
      Added(wallet, ops[..|ops| - 1])
      + match ops[|ops| - 1]
        case Insert(n) => {n.commitment}
        case Ingest(e) => if wallet.Claim(e).Some? then {e.commitment} else {}
        case Mark(_) => {}
  }

  function Marked(ops: seq<Op>): set<nat> {
    if ops == [] then {}
    else
      Marked(ops[..|ops| - 1]) + if ops[|ops| - 1].Mark? then {ops[|ops| - 1].nullifier} else {}
  }

  ghost predicate IsListed(notes: seq<SpendableNote>, commitment: nat) {
    exists i :: 0 <= i < |notes| && notes[i].commitment == commitment
  }

  lemma {:induction false} ReplayContents(wallet: Wallet, ops: seq<Op>, k: nat)
    ensures Has(Replay(wallet, ops).notes, ToDecimal(k)) <==> k in Added(wallet, ops)
    ensures ToDecimal(k) in Replay(wallet, ops).spent <==> k in Marked(ops)
  {
    if ops != [] {
      var before, op := ops[..|ops| - 1], ops[|ops| - 1];
      ReplayContents(wallet, before, k);
      var m := Replay(wallet, before);
      match op
      case Insert(n) =>
        PutHas(m.notes, ToDecimal(n.commitment), n, ToDecimal(k));
        SameTextSameNumber(k, n.commitment);
      case Ingest(e) =>
        if wallet.Claim(e).Some? {
          PutHas(m.notes, ToDecimal(e.commitment), wallet.Claim(e).value, ToDecimal(k));
          SameTextSameNumber(k, e.commitment);
        }
      case Mark(n) =>
        SameTextSameNumber(k, n);
    }
  }

  lemma SameTextSameNumber(a: nat, b: nat)
    ensures ToDecimal(a) == ToDecimal(b) <==> a == b
  {
    if ToDecimal(a) == ToDecimal(b) {
      DecimalInjective(a, b);
    }
  }

  /** In a well-keyed map, a commitment is listed as spendable exactly when it is held and not spent. */
  lemma ListedIff(m: Memory, k: nat)
    requires WellKeyed(m.notes)
    ensures IsListed(Spendable(m.notes, m.spent, None), k)
            <==> Has(m.notes, ToDecimal(k)) && ToDecimal(k) !in m.spent
  {
    var out := Spendable(m.notes, m.spent, None);
    if i :| 0 <= i < |out| && out[i].commitment == k {
      SpendableIff(m.notes, m.spent, None, out[i]);
    }
    if i :| 0 <= i < |m.notes| && m.notes[i].key == ToDecimal(k) && ToDecimal(k) !in m.spent {
      var n := m.notes[i].note;
      DecimalInjective(n.commitment, k);
      SpendableIff(m.notes, m.spent, None, n);
      var j :| 0 <= j < |out| && out[j] == n;
    }
  }

  /** Over every run, what is spendable is what was added minus what was marked, by the mutations that count. */
  lemma SpendableOverRuns(wallet: Wallet, run: seq<RunStep>, k: nat)
    ensures var m, h := Run(wallet, run).mem, Recall(wallet, run);
            IsListed(Spendable(m.notes, m.spent, None), k) <==> k in Added(wallet, h.live) && k !in Marked(h.live)
  {
    var h := Recall(wallet, run);
    RunIsReplay(wallet, run);
    ReplayWellKeyed(wallet, h.live);
    ReplayContents(wallet, h.live, k);
    ListedIff(Replay(wallet, h.live), k);
  }

  function Mutations(run: seq<RunStep>): seq<Op> {
    if run == [] then []
    else Mutations(run[..|run| - 1]) + if run[|run| - 1].Do? then [run[|run| - 1].op] else []
  }

  ghost predicate AllWritten(run: seq<RunStep>) {
    forall i :: 0 <= i < |run| && run[i].Do? ==> run[i].written
  }

  /** If every write succeeds, restarts lose nothing that brings notes in or marks them. */
  lemma {:induction false} AllWrittenKeepsAll(wallet: Wallet, run: seq<RunStep>)
    requires AllWritten(run)
    ensures var h := Recall(wallet, run);
            && Added(wallet, h.live) == Added(wallet, h.saved) == Added(wallet, Mutations(run))
            && Marked(h.live) == Marked(h.saved) == Marked(Mutations(run))
  {
    if run != [] {
      var before, e := run[..|run| - 1], run[|run| - 1];
      AllWrittenKeepsAll(wallet, before);
      var h := Recall(wallet, before);
      if e.Do? {
        AppendOne(wallet, h.live, e.op);
        AppendOne(wallet, Mutations(before), e.op);
      } else {
        assert Mutations(before) + [] == Mutations(before);
      }
    }
  }

  lemma AppendOne(wallet: Wallet, ops: seq<Op>, op: Op)
    ensures Added(wallet, ops + [op]) == Added(wallet, ops) + Added(wallet, [op])
    ensures Marked(ops + [op]) == Marked(ops) + Marked([op])
    ensures !Writes(wallet, op) ==> Added(wallet, [op]) == {} && Marked([op]) == {}
  {
    assert (ops + [op])[..|ops|] == ops;
    assert [op][..0] == [];
  }

  /** With every write succeeding, spendable is exactly everything ever added minus everything ever marked. */
  lemma SpendableWhenAllWritten(wallet: Wallet, run: seq<RunStep>, k: nat)
    requires AllWritten(run)
    ensures var m := Run(wallet, run).mem;
            IsListed(Spendable(m.notes, m.spent, None), k)
            <==> k in Added(wallet, Mutations(run)) && k !in Marked(Mutations(run))
  {
    SpendableOverRuns(wallet, run, k);
    AllWrittenKeepsAll(wallet, run);
  }

  lemma {:induction false} SavedOnlyGrows(wallet: Wallet, run: seq<RunStep>, more: seq<RunStep>)
    ensures Recall(wallet, run).saved <= Recall(wallet, run + more).saved
  {
    if more == [] {
      assert run + more == run;
    } else {
      assert (run + more)[..|run + more| - 1] == run + more[..|more| - 1];
      SavedOnlyGrows(wallet, run, more[..|more| - 1]);
    }
  }

  lemma {:induction false} MarkedMonotone(a: seq<Op>, b: seq<Op>)
    requires a <= b
    ensures Marked(a) <= Marked(b)
  {
    if a != b {
      MarkedMonotone(a, b[..|b| - 1]);
    }
  }

  /**
   A spend whose write succeeded is final: whatever follows, failed writes, re-inserts and restarts
   included, the commitment is never spendable again.
   */
  lemma MarkedForever(wallet: Wallet, run: seq<RunStep>, k: nat, more: seq<RunStep>)
    ensures var m := Run(wallet, run + [Do(Mark(k), true)] + more).mem;
            !IsListed(Spendable(m.notes, m.spent, None), k)
  {
    var marked := run + [Do(Mark(k), true)];
    assert marked[..|marked| - 1] == run;
    var h := Recall(wallet, marked);
    assert h.saved == Recall(wallet, run).live + [Mark(k)];
    assert k in Marked(h.saved);
    SavedOnlyGrows(wallet, marked, more);
    var later := Recall(wallet, marked + more);
    MarkedMonotone(h.saved, later.live);
    SpendableOverRuns(wallet, marked + more, k);
  }

  /** Some call of a run ends in a write that succeeds. */
  ghost predicate SomeWritten(wallet: Wallet, run: seq<RunStep>) {
    exists i :: 0 <= i < |run| && run[i].Do? && run[i].written && Writes(wallet, run[i].op)
  }

  lemma RecallSnoc(wallet: Wallet, run: seq<RunStep>, e: RunStep)
    ensures Recall(wallet, run + [e]) == Remember(wallet, Recall(wallet, run), e)
  {
    assert (run + [e])[..|run|] == run;
  }

  lemma SomeWrittenSnoc(wallet: Wallet, run: seq<RunStep>, e: RunStep)
    ensures SomeWritten(wallet, run + [e]) <==> SomeWritten(wallet, run) || (e.Do? && e.written && Writes(wallet, e.op))
  {
    var longer := run + [e];
    if e.Do? && e.written && Writes(wallet, e.op) {
      assert longer[|run|] == e;
    }
    if i :| 0 <= i < |run| && run[i].Do? && run[i].written && Writes(wallet, run[i].op) {
      assert longer[i] == run[i];
    }
  }

  /** Once a mark is in memory, every written call puts it on disk. */
  lemma MarkStep(wallet: Wallet, h: History, e: RunStep, k: nat)
    requires e.Do? && k in Marked(h.live + [e.op])
    ensures var after := Remember(wallet, h, e);
            && k in Marked(after.live)
            && (k in Marked(after.saved) <==> k in Marked(h.saved) || (e.written && Writes(wallet, e.op)))
  {
  }

  lemma MarkedSnoc(ops: seq<Op>, op: Op, k: nat)
    ensures k in Marked(ops + [op]) <==> k in Marked(ops) || op == Mark(k)
  {
    assert (ops + [op])[..|ops|] == ops;
  }

  /** What counts after some more steps. */
  function RecallFrom(wallet: Wallet, h: History, more: seq<RunStep>): History {
    if more == [] then h else Remember(wallet, RecallFrom(wallet, h, more[..|more| - 1]), more[|more| - 1])
  }

  lemma {:induction false} RecallConcat(wallet: Wallet, run: seq<RunStep>, more: seq<RunStep>)
    ensures Recall(wallet, run + more) == RecallFrom(wallet, Recall(wallet, run), more)
  {
    if more == [] {
      assert run + more == run;
    } else {
      assert (run + more)[..|run + more| - 1] == run + more[..|more| - 1];
      RecallConcat(wallet, run, more[..|more| - 1]);
    }
  }

  /** Until the next restart a mark stays in memory, and is on disk once any write succeeds. */
  lemma {:induction false} MarkAmid(wallet: Wallet, h: History, k: nat, mid: seq<RunStep>)
    requires Restart !in mid && k in Marked(h.live)
    ensures var after := RecallFrom(wallet, h, mid);
            && k in Marked(after.live)
            && (k in Marked(after.saved) <==> k in Marked(h.saved) || SomeWritten(wallet, mid))
  {
    if mid != [] {
      var front, e := mid[..|mid| - 1], mid[|mid| - 1];
      assert mid == front + [e] && e in mid;
      MarkAmid(wallet, h, k, front);
      SomeWrittenSnoc(wallet, front, e);
      MarkedSnoc(RecallFrom(wallet, h, front).live, e.op, k);
      MarkStep(wallet, RecallFrom(wallet, h, front), e, k);
    }
  }

  /**
   A spend survives the next restart if and only if its own write succeeded, or a later one before the
   restart did, or the commitment was marked on disk before.
   */
  lemma MarkSurvivesIff(wallet: Wallet, run: seq<RunStep>, k: nat, written: bool, mid: seq<RunStep>)
    requires Restart !in mid
    ensures k in Marked(Recall(wallet, run + [Do(Mark(k), written)] + mid + [Restart]).live)
            <==> written || SomeWritten(wallet, mid) || k in Marked(Recall(wallet, run).saved)
  {
    var h, marked := Recall(wallet, run), run + [Do(Mark(k), written)];
    RecallSnoc(wallet, run, Do(Mark(k), written));
    MarkedSnoc(h.live, Mark(k), k);
    MarkStep(wallet, h, Do(Mark(k), written), k);
    RecallConcat(wallet, marked, mid);
    MarkAmid(wallet, Recall(wallet, marked), k, mid);
    RecallSnoc(wallet, marked + mid, Restart);
  }

  /** So after the restart the commitment is spendable again exactly if it is on disk and the mark is not. */
  lemma SpendableAfterRestartIff(wallet: Wallet, run: seq<RunStep>, k: nat, written: bool, mid: seq<RunStep>)
    requires Restart !in mid
    ensures var before := run + [Do(Mark(k), written)] + mid;
            var m := Run(wallet, before + [Restart]).mem;
            IsListed(Spendable(m.notes, m.spent, None), k)
            <==> k in Added(wallet, Recall(wallet, before).saved)
                 && !written && !SomeWritten(wallet, mid) && k !in Marked(Recall(wallet, run).saved)
  {
    var before := run + [Do(Mark(k), written)] + mid;
    MarkSurvivesIff(wallet, run, k, written, mid);
    SpendableOverRuns(wallet, before + [Restart], k);
    RecallSnoc(wallet, before, Restart);
  }

  /**
   A spend that is forgotten, after any run that has not marked the commitment, the empty one included:
   the note is inserted and written, its mark is not written, and the process restarts.
   */
  lemma UnwrittenMarkIsForgotten(wallet: Wallet, run: seq<RunStep>, n: SpendableNote)
    requires n.commitment !in Marked(Recall(wallet, run).live)
    ensures var m := Run(wallet, run + [Do(Insert(n), true)] + [Do(Mark(n.commitment), false)] + [Restart]).mem;
            IsListed(Spendable(m.notes, m.spent, None), n.commitment)
  {
    var k, h, inserted := n.commitment, Recall(wallet, run), run + [Do(Insert(n), true)];
    RecallSnoc(wallet, run, Do(Insert(n), true));
    RecallSnoc(wallet, inserted, Do(Mark(k), false));
    MarkedSnoc(h.live, Insert(n), k);
    AppendOne(wallet, h.live, Insert(n));
    assert [Insert(n)][..0] == [];
    var marked := inserted + [Do(Mark(k), false)];
    assert marked + [] == marked;
    SpendableAfterRestartIff(wallet, inserted, k, false, []);
  }
}
