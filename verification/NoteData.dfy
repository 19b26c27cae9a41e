/** packages/sdk/src/note-store.ts: the values the note store handles, in memory and on disk. */
module NoteData {
  import opened FieldCodec
  import opened TextCodec
  import opened Wrappers

  /** A pool signature, by its position in the pool's history, oldest first. */
  type Sig = nat

  datatype Encrypted = Encrypted(ciphertext: Bytes, ephemeralPub: Bytes, viewingTag: Bytes)

  /** A CommitmentAppended event. */
  datatype Event = Event(commitment: nat, leafIndex: nat, encrypted: Encrypted)

  /** A pool transaction: whether it failed, and the events in its logs. */
  datatype Tx = Tx(failed: bool, events: seq<Event>)

  datatype Plain = Plain(tokenMint: nat, value: nat, random: nat, spendingPub: nat)

  datatype SpendableNote = SpendableNote(plain: Plain, spendingPriv: nat, commitment: nat, leafIndex: nat, encrypted: Encrypted)

  /** The wallet's keys as what they do: trial decryption at a leaf index, and the commitment hash. */
  datatype Wallet = Wallet(
    decrypt: (Encrypted, nat, nat) -> Option<Plain>,
    commit: Plain -> nat,
    spendingPub: nat,
    spendingPriv: nat)
  {
    /** The note an event holds for this wallet, if it decrypts, opens the commitment and names this wallet. */
    function Claim(e: Event): Option<SpendableNote> {
      match decrypt(e.encrypted, e.leafIndex, spendingPub)
      case None => None
      case Some(plain) =>
        if commit(plain) != e.commitment || plain.spendingPub != spendingPub then None
        else Some(SpendableNote(plain, spendingPriv, e.commitment, e.leafIndex, e.encrypted))
    }
  }

  /** A claim is the decrypted plaintext itself, with the event's data and the wallet's key beside it, and nothing less is claimed. */
  lemma ClaimIs(wallet: Wallet, e: Event)
    ensures var plain := wallet.decrypt(e.encrypted, e.leafIndex, wallet.spendingPub);
            var opens := plain.Some? && wallet.commit(plain.value) == e.commitment && plain.value.spendingPub == wallet.spendingPub;
            && (wallet.Claim(e).Some? <==> opens)
            && (opens ==> wallet.Claim(e).value
                          == SpendableNote(plain.value, wallet.spendingPriv, e.commitment, e.leafIndex, e.encrypted))
  {
  }

  // ----- The insertion-ordered map of notes -----

  datatype Entry = Entry(key: string, note: SpendableNote)

  predicate Has(notes: seq<Entry>, key: string) {
    exists i :: 0 <= i < |notes| && notes[i].key == key
  }

  /** Map.set: replaces the value of a present key where it stands, or adds the key at the end. */
  function Put(notes: seq<Entry>, key: string, note: SpendableNote): seq<Entry> {
    if notes == [] then [Entry(key, note)]
    else if notes[0].key == key then [Entry(key, note)] + notes[1..]
    else [notes[0]] + Put(notes[1..], key, note)
  }

  ghost predicate DistinctKeys(notes: seq<Entry>) {
    forall i, j :: 0 <= i < j < |notes| ==> notes[i].key != notes[j].key
  }

  /** Every note sits under the decimal text of its commitment. */
  ghost predicate WellKeyed(notes: seq<Entry>) {
    DistinctKeys(notes) && forall i :: 0 <= i < |notes| ==> notes[i].key == ToDecimal(notes[i].note.commitment)
  }

  lemma {:induction false} PutHas(notes: seq<Entry>, key: string, note: SpendableNote, k: string)
    ensures Has(Put(notes, key, note), k) <==> Has(notes, k) || k == key
    ensures |Put(notes, key, note)| == |notes| + if Has(notes, key) then 0 else 1
  {
    var after := Put(notes, key, note);
    if notes == [] {
      assert after[0].key == key;
    } else {
      HasCons(notes, k);
      HasCons(notes, key);
      HasCons(after, k);
      if notes[0].key != key {
        PutHas(notes[1..], key, note, k);
        assert after[1..] == Put(notes[1..], key, note);
      } else {
        assert after[1..] == notes[1..];
      }
    }
  }

  lemma HasCons(notes: seq<Entry>, k: string)
    requires notes != []
    ensures Has(notes, k) <==> notes[0].key == k || Has(notes[1..], k)
  {
    if Has(notes, k) && notes[0].key != k {
      var i :| 0 <= i < |notes| && notes[i].key == k;
      assert notes[1..][i - 1].key == k;
    }
    if Has(notes[1..], k) {
      var i :| 0 <= i < |notes[1..]| && notes[1..][i].key == k;
      assert notes[i + 1].key == k;
    }
  }

  /** Setting a present key changes that entry only. */
  lemma {:induction false} PutAt(notes: seq<Entry>, key: string, note: SpendableNote, i: nat)
    requires DistinctKeys(notes)
    requires i < |notes| && notes[i].key == key
    ensures Put(notes, key, note) == notes[i := Entry(key, note)]
  {
    if notes[0].key == key {
      assert i == 0;
    } else {
      PutAt(notes[1..], key, note, i - 1);
    }
  }

  /** Setting an absent key appends. */
  lemma {:induction false} PutAbsent(notes: seq<Entry>, key: string, note: SpendableNote)
    requires !Has(notes, key)
    ensures Put(notes, key, note) == notes + [Entry(key, note)]
  {
    if notes != [] {
      HasCons(notes, key);
      PutAbsent(notes[1..], key, note);
      assert notes == [notes[0]] + notes[1..];
    }
  }

  /** Setting a key keeps keys distinct and leaves every entry but its own. */
  lemma PutDistinct(notes: seq<Entry>, key: string, note: SpendableNote)
    requires DistinctKeys(notes)
    ensures DistinctKeys(Put(notes, key, note))
    ensures forall e :: e in Put(notes, key, note) ==> e == Entry(key, note) || e in notes
  {
    if i :| 0 <= i < |notes| && notes[i].key == key {
      PutAt(notes, key, note, i);
    } else {
      PutAbsent(notes, key, note);
    }
  }

  lemma PutWellKeyed(notes: seq<Entry>, note: SpendableNote)
    requires WellKeyed(notes)
    ensures WellKeyed(Put(notes, ToDecimal(note.commitment), note))
  {
    var after := Put(notes, ToDecimal(note.commitment), note);
    PutDistinct(notes, ToDecimal(note.commitment), note);
    forall i | 0 <= i < |after|
      ensures after[i].key == ToDecimal(after[i].note.commitment)
    {
      assert after[i] in after;
    }
  }

  // ----- Queries -----

  /** The notes that are not spent and pass a mint filter, in map order. */
  function Spendable(notes: seq<Entry>, spent: set<string>, mint: Option<nat>): seq<SpendableNote> {
    if notes == [] then []
    else
      var last := notes[|notes| - 1];
      Spendable(notes[..|notes| - 1], spent, mint)
      + if IsSpendable(last.note, spent, mint) then [last.note] else []
  }

  predicate IsSpendable(n: SpendableNote, spent: set<string>, mint: Option<nat>) {
    (mint.Some? ==> n.plain.tokenMint == mint.value) && ToDecimal(n.commitment) !in spent
  }

  lemma {:induction false} SpendableIff(notes: seq<Entry>, spent: set<string>, mint: Option<nat>, n: SpendableNote)
    ensures n in Spendable(notes, spent, mint)
            <==> IsSpendable(n, spent, mint) && exists i :: 0 <= i < |notes| && notes[i].note == n
  {
    if notes != [] {
      var rest := notes[..|notes| - 1];
      SpendableIff(rest, spent, mint, n);
      if i :| 0 <= i < |notes| && notes[i].note == n {
        assert i < |rest| ==> rest[i].note == n;
      }
      if i :| 0 <= i < |rest| && rest[i].note == n {
        assert notes[i].note == n;
      }
    }
  }

  /** The spendable notes above a leaf index, in map order. */
  function Fresh(notes: seq<Entry>, spent: set<string>, mint: Option<nat>, since: int): seq<SpendableNote> {
    if notes == [] then []
    else
      var n := notes[|notes| - 1].note;
      Fresh(notes[..|notes| - 1], spent, mint, since)
      + if IsSpendable(n, spent, mint) && n.leafIndex > since then [n] else []
  }

  lemma {:induction false} FreshIff(notes: seq<Entry>, spent: set<string>, mint: Option<nat>, since: int, n: SpendableNote)
    ensures n in Fresh(notes, spent, mint, since)
            <==> IsSpendable(n, spent, mint) && n.leafIndex > since && exists i :: 0 <= i < |notes| && notes[i].note == n
  {
    if notes != [] {
      var rest := notes[..|notes| - 1];
      FreshIff(rest, spent, mint, since, n);
      if i :| 0 <= i < |notes| && notes[i].note == n {
        assert i < |rest| ==> rest[i].note == n;
      }
      if i :| 0 <= i < |rest| && rest[i].note == n {
        assert notes[i].note == n;
      }
    }
  }

  /** In a well-keyed map every commitment passes the filter at most once. */
  lemma {:induction false} FreshOnce(notes: seq<Entry>, spent: set<string>, mint: Option<nat>, since: int, n: SpendableNote)
    requires WellKeyed(notes)
    ensures multiset(Fresh(notes, spent, mint, since))[n] <= 1
  {
    if notes != [] {
      var rest, last := notes[..|notes| - 1], notes[|notes| - 1].note;
      FreshOnce(rest, spent, mint, since, n);
      forall i | 0 <= i < |rest|
        ensures rest[i].note != last
      {
        assert notes[i].key != notes[|rest|].key;
      }
      FreshIff(rest, spent, mint, since, last);
    }
  }

  /** A list of notes picked from the map at strictly increasing positions. */
  ghost predicate PickedAt(out: seq<SpendableNote>, notes: seq<Entry>, at: seq<nat>) {
    && |out| == |at|
    && (forall i, j :: 0 <= i < j < |at| ==> at[i] < at[j])
    && forall i {:trigger at[i]} {:trigger out[i]} :: 0 <= i < |at| ==> at[i] < |notes| && out[i] == notes[at[i]].note
  }

  lemma PickedSnoc(out: seq<SpendableNote>, notes: seq<Entry>, at: seq<nat>, e: Entry)
    requires PickedAt(out, notes, at)
    ensures PickedAt(out, notes + [e], at)
    ensures PickedAt(out + [e.note], notes + [e], at + [|notes|])
  {
  }

  /** The query lists the notes at exactly the positions that pass the filter and are unspent, in map order, each once. */
  lemma {:induction false} SpendableInOrder(notes: seq<Entry>, spent: set<string>, mint: Option<nat>) returns (at: seq<nat>)
    ensures PickedAt(Spendable(notes, spent, mint), notes, at)
    ensures forall i: nat :: i in at <==>
              i < |notes| && (mint.None? || notes[i].note.plain.tokenMint == mint.value)
              && ToDecimal(notes[i].note.commitment) !in spent
  {
    if notes == [] {
      at := [];
    } else {
      var rest, e := notes[..|notes| - 1], notes[|notes| - 1];
      at := SpendableInOrder(rest, spent, mint);
      PickedSnoc(Spendable(rest, spent, mint), rest, at, e);
      assert notes == rest + [e];
      if IsSpendable(e.note, spent, mint) {
        at := at + [|rest|];
      }
    }
  }

  /** So does the query above a leaf index, before it sorts. */
  lemma {:induction false} FreshInOrder(notes: seq<Entry>, spent: set<string>, mint: Option<nat>, since: int) returns (at: seq<nat>)
    ensures PickedAt(Fresh(notes, spent, mint, since), notes, at)
    ensures forall i: nat :: i in at <==>
              i < |notes| && (mint.None? || notes[i].note.plain.tokenMint == mint.value)
              && ToDecimal(notes[i].note.commitment) !in spent && notes[i].note.leafIndex > since
  {
    if notes == [] {
      at := [];
    } else {
      var rest, e := notes[..|notes| - 1], notes[|notes| - 1];
      at := FreshInOrder(rest, spent, mint, since);
      PickedSnoc(Fresh(rest, spent, mint, since), rest, at, e);
      assert notes == rest + [e];
      if IsSpendable(e.note, spent, mint) && e.note.leafIndex > since {
        at := at + [|rest|];
      }
    }
  }

  /** No commitment is listed twice. */
  lemma PickedOnce(out: seq<SpendableNote>, notes: seq<Entry>, at: seq<nat>)
    requires WellKeyed(notes) && PickedAt(out, notes, at)
    ensures forall i, j :: 0 <= i < j < |out| ==> out[i].commitment != out[j].commitment
  {
    forall i, j | 0 <= i < j < |out|
      ensures out[i].commitment != out[j].commitment
    {
      assert notes[at[i]].key != notes[at[j]].key;
    }
  }

  lemma SpendableOnce(notes: seq<Entry>, spent: set<string>, mint: Option<nat>)
    requires WellKeyed(notes)
    ensures var out := Spendable(notes, spent, mint);
            forall i, j :: 0 <= i < j < |out| ==> out[i].commitment != out[j].commitment
  {
    var at := SpendableInOrder(notes, spent, mint);
    PickedOnce(Spendable(notes, spent, mint), notes, at);
  }

  /** Array.sort by leaf index: ascending, and stable. */
  function SortByLeaf(notes: seq<SpendableNote>): seq<SpendableNote> {
    if notes == [] then [] else InsertByLeaf(SortByLeaf(notes[..|notes| - 1]), notes[|notes| - 1])
  }

  /** After every note that is not above it. */
  function InsertByLeaf(sorted: seq<SpendableNote>, n: SpendableNote): seq<SpendableNote> {
    if sorted == [] || sorted[|sorted| - 1].leafIndex <= n.leafIndex then sorted + [n]
    else InsertByLeaf(sorted[..|sorted| - 1], n) + [sorted[|sorted| - 1]]
  }

  ghost predicate Ascending(notes: seq<SpendableNote>) {
    forall i, j :: 0 <= i < j < |notes| ==> notes[i].leafIndex <= notes[j].leafIndex
  }

  lemma MultisetSnoc(notes: seq<SpendableNote>)
    requires notes != []
    ensures multiset(notes) == multiset(notes[..|notes| - 1]) + multiset{notes[|notes| - 1]}
  {
    assert notes == notes[..|notes| - 1] + [notes[|notes| - 1]];
  }

  lemma {:induction false} InsertAdds(sorted: seq<SpendableNote>, n: SpendableNote)
    ensures multiset(InsertByLeaf(sorted, n)) == multiset(sorted) + multiset{n}
  {
    if sorted != [] && sorted[|sorted| - 1].leafIndex > n.leafIndex {
      InsertAdds(sorted[..|sorted| - 1], n);
      MultisetSnoc(sorted);
    }
  }

  lemma {:induction false} InsertStaysBelow(sorted: seq<SpendableNote>, n: SpendableNote, top: int)
    requires n.leafIndex <= top && forall i :: 0 <= i < |sorted| ==> sorted[i].leafIndex <= top
    ensures forall i {:trigger InsertByLeaf(sorted, n)[i]} :: 0 <= i < |InsertByLeaf(sorted, n)| ==>
              InsertByLeaf(sorted, n)[i].leafIndex <= top
  {
    if sorted != [] && sorted[|sorted| - 1].leafIndex > n.leafIndex {
      InsertStaysBelow(sorted[..|sorted| - 1], n, top);
    }
  }

  lemma {:induction false} InsertKeepsAscending(sorted: seq<SpendableNote>, n: SpendableNote)
    requires Ascending(sorted)
    ensures Ascending(InsertByLeaf(sorted, n))
  {
    if sorted != [] && sorted[|sorted| - 1].leafIndex > n.leafIndex {
      InsertKeepsAscending(sorted[..|sorted| - 1], n);
      InsertStaysBelow(sorted[..|sorted| - 1], n, sorted[|sorted| - 1].leafIndex);
    }
  }

  lemma {:induction false} SortKeepsNotes(notes: seq<SpendableNote>)
    ensures multiset(SortByLeaf(notes)) == multiset(notes)
  {
    if notes != [] {
      SortKeepsNotes(notes[..|notes| - 1]);
      InsertAdds(SortByLeaf(notes[..|notes| - 1]), notes[|notes| - 1]);
      MultisetSnoc(notes);
    }
  }

  /** The notes of one leaf index, in order. */
  function OfLeaf(notes: seq<SpendableNote>, leaf: int): seq<SpendableNote> {
    if notes == [] then []
    else OfLeaf(notes[..|notes| - 1], leaf) + if notes[|notes| - 1].leafIndex == leaf then [notes[|notes| - 1]] else []
  }

  lemma {:induction false} InsertIsStable(sorted: seq<SpendableNote>, n: SpendableNote, leaf: int)
    requires Ascending(sorted)
    ensures OfLeaf(InsertByLeaf(sorted, n), leaf) == OfLeaf(sorted + [n], leaf)
  {
    assert (sorted + [n])[..|sorted|] == sorted;
    if sorted != [] && sorted[|sorted| - 1].leafIndex > n.leafIndex {
      var front, last := sorted[..|sorted| - 1], sorted[|sorted| - 1];
      InsertIsStable(front, n, leaf);
      assert (front + [n])[..|front|] == front;
      assert InsertByLeaf(sorted, n)[..|InsertByLeaf(sorted, n)| - 1] == InsertByLeaf(front, n);
    }
  }

  /** Notes of one leaf index keep their order. */
  lemma {:induction false} SortIsStable(notes: seq<SpendableNote>, leaf: int)
    ensures OfLeaf(SortByLeaf(notes), leaf) == OfLeaf(notes, leaf)
  {
    if notes != [] {
      var front, last := notes[..|notes| - 1], notes[|notes| - 1];
      SortIsStable(front, leaf);
      SortByLeafSorts(front);
      InsertIsStable(SortByLeaf(front), last, leaf);
      assert (SortByLeaf(front) + [last])[..|SortByLeaf(front)|] == SortByLeaf(front);
    }
  }

  /** The same notes, leaf indices ascending. */
  lemma {:induction false} SortByLeafSorts(notes: seq<SpendableNote>)
    ensures Ascending(SortByLeaf(notes))
    ensures multiset(SortByLeaf(notes)) == multiset(notes)
  {
    SortKeepsNotes(notes);
    if notes != [] {
      SortByLeafSorts(notes[..|notes| - 1]);
      InsertKeepsAscending(SortByLeaf(notes[..|notes| - 1]), notes[|notes| - 1]);
    }
  }

  // ----- The wallet's share of a history -----

  /** Runs events past the wallet: commitments already held are skipped, claimed ones are added. */
  function Absorb(wallet: Wallet, notes: seq<Entry>, events: seq<Event>): seq<Entry> {
    if events == [] then notes
    else AbsorbOne(wallet, Absorb(wallet, notes, events[..|events| - 1]), events[|events| - 1])
  }

  function AbsorbOne(wallet: Wallet, notes: seq<Entry>, e: Event): seq<Entry> {
    if Has(notes, ToDecimal(e.commitment)) || wallet.Claim(e).None? then notes
    else Put(notes, ToDecimal(e.commitment), wallet.Claim(e).value)
  }

  /** Everything a transaction holds for the wallet is in the map. */
  ghost predicate Covered(wallet: Wallet, tx: Tx, notes: seq<Entry>) {
    forall e :: e in tx.events && wallet.Claim(e).Some? ==> Has(notes, ToDecimal(e.commitment))
  }

  /** b still holds every commitment of a. */
  ghost predicate Keeps(a: seq<Entry>, b: seq<Entry>) {
    forall k :: Has(a, k) ==> Has(b, k)
  }

  lemma {:induction false} AbsorbCovers(wallet: Wallet, notes: seq<Entry>, events: seq<Event>)
    requires WellKeyed(notes)
    ensures WellKeyed(Absorb(wallet, notes, events))
    ensures Keeps(notes, Absorb(wallet, notes, events))
    ensures forall e :: e in events && wallet.Claim(e).Some? ==> Has(Absorb(wallet, notes, events), ToDecimal(e.commitment))
  {
    if events != [] {
      var rest, e := events[..|events| - 1], events[|events| - 1];
      AbsorbCovers(wallet, notes, rest);
      var before := Absorb(wallet, notes, rest);
      var after := Absorb(wallet, notes, events);
      var key := ToDecimal(e.commitment);
      if !Has(before, key) && wallet.Claim(e).Some? {
        PutWellKeyed(before, wallet.Claim(e).value);
        forall k | Has(before, k) || k == key
          ensures Has(after, k)
        {
          PutHas(before, key, wallet.Claim(e).value, k);
        }
      }
      assert forall x :: x in events ==> x in rest || x == e;
    }
  }

  /** Entries that are there stay where and as they are; each one behind them is the claim of an event, under its commitment. */
  lemma {:induction false} AbsorbAppends(wallet: Wallet, notes: seq<Entry>, events: seq<Event>)
    ensures var after := Absorb(wallet, notes, events);
            && notes <= after
            && forall i {:trigger after[i]} :: |notes| <= i < |after| ==>
                 exists e :: e in events && wallet.Claim(e) == Some(after[i].note) && after[i].key == ToDecimal(e.commitment)
  {
    if events != [] {
      var rest, last := events[..|events| - 1], events[|events| - 1];
      AbsorbAppends(wallet, notes, rest);
      var before, after := Absorb(wallet, notes, rest), Absorb(wallet, notes, events);
      if !Has(before, ToDecimal(last.commitment)) && wallet.Claim(last).Some? {
        PutAbsent(before, ToDecimal(last.commitment), wallet.Claim(last).value);
      }
      assert last in events && forall e :: e in rest ==> e in events;
      forall i {:trigger after[i]} | |notes| <= i < |after|
        ensures exists e :: e in events && wallet.Claim(e) == Some(after[i].note) && after[i].key == ToDecimal(e.commitment)
      {
        if i < |before| {
          var e :| e in rest && wallet.Claim(e) == Some(before[i].note) && before[i].key == ToDecimal(e.commitment);
        } else {
          assert wallet.Claim(last) == Some(after[i].note) && after[i].key == ToDecimal(last.commitment);
        }
      }
    }
  }

  /** Events can be absorbed in portions. */
  lemma {:induction false} AbsorbConcat(wallet: Wallet, notes: seq<Entry>, a: seq<Event>, b: seq<Event>)
    ensures Absorb(wallet, notes, a + b) == Absorb(wallet, Absorb(wallet, notes, a), b)
  {
    if b == [] {
      assert a + b == a;
    } else {
      assert (a + b)[..|a + b| - 1] == a + b[..|b| - 1];
      AbsorbConcat(wallet, notes, a, b[..|b| - 1]);
    }
  }

  // ----- Snapshots -----

  datatype Memory = Memory(notes: seq<Entry>, spent: set<string>, cursor: Option<Sig>)

  datatype PersistedNote = PersistedNote(
    tokenMint: string, value: string, random: string, spendingPub: string, spendingPriv: string,
    commitment: string, leafIndex: string, ciphertext: string, ephemeralPub: string, viewingTag: string)

  /** What the snapshot path can hold. */
  datatype File = Missing | Unparsable | Json(v: int, notes: seq<PersistedNote>, spent: set<string>, cursor: Option<Sig>)

  function WriteNote(n: SpendableNote): PersistedNote {
    PersistedNote(
      ToDecimal(n.plain.tokenMint), ToDecimal(n.plain.value), ToDecimal(n.plain.random), ToDecimal(n.plain.spendingPub),
      ToDecimal(n.spendingPriv), ToDecimal(n.commitment), ToDecimal(n.leafIndex),
      BytesToHex(n.encrypted.ciphertext), BytesToHex(n.encrypted.ephemeralPub), BytesToHex(n.encrypted.viewingTag))
  }

  /** None stands for an exception while one of the fields is parsed. */
  function ReadNote(p: PersistedNote): Option<SpendableNote> {
    match (FromDecimal(p.tokenMint), FromDecimal(p.value), FromDecimal(p.random), FromDecimal(p.spendingPub))
    case (Some(mint), Some(value), Some(random), Some(spendingPub)) =>
      (match (FromDecimal(p.spendingPriv), FromDecimal(p.commitment), FromDecimal(p.leafIndex))
       case (Some(priv), Some(commitment), Some(leafIndex)) =>
         (match (HexToBytes(p.ciphertext), HexToBytes(p.ephemeralPub), HexToBytes(p.viewingTag))
          case (Some(c), Some(e), Some(t)) =>
            Some(SpendableNote(Plain(mint, value, random, spendingPub), priv, commitment, leafIndex, Encrypted(c, e, t)))
          case _ => None)
       case _ => None)
    case _ => None
  }

  function WriteNotes(notes: seq<Entry>): (p: seq<PersistedNote>)
    ensures |p| == |notes|
  {
    if notes == [] then [] else WriteNotes(notes[..|notes| - 1]) + [WriteNote(notes[|notes| - 1].note)]
  }

  lemma {:induction false} WriteNotesAt(notes: seq<Entry>, i: nat)
    requires i < |notes|
    ensures WriteNotes(notes)[i] == WriteNote(notes[i].note)
  {
    if i < |notes| - 1 {
      WriteNotesAt(notes[..|notes| - 1], i);
    }
  }

  /** The v2 snapshot of a state. */
  function Snapshot(m: Memory): File {
    Json(2, WriteNotes(m.notes), m.spent, m.cursor)
  }

  /** Restores notes one by one, up to the first that cannot be read; false if there is one. */
  function ReadNotes(read: PersistedNote -> Option<SpendableNote>, into: seq<Entry>, notes: seq<PersistedNote>): (seq<Entry>, bool)
    decreases |notes|
  {
    if notes == [] then (into, true)
    else
      match read(notes[0])
      case None => (into, false)
      case Some(n) => ReadNotes(read, Put(into, notes[0].commitment, n), notes[1..])
  }

  /** Hydration: nothing from a file of no known version, a prefix of the notes from a damaged one. */
  function Hydrated(m: Memory, f: File): Memory {
    HydratedWith(ReadNote, m, f)
  }

  function HydratedWith(read: PersistedNote -> Option<SpendableNote>, m: Memory, f: File): Memory {
    if !f.Json? || (f.v != 1 && f.v != 2) then m
    else
      var (notes, complete) := ReadNotes(read, m.notes, f.notes);
      if !complete then m.(notes := notes)
      else Memory(notes, m.spent + f.spent, if f.v == 2 then f.cursor else m.cursor)
  }

  const EMPTY := Memory([], {}, None)

  // ----- Mutations -----

  /** A call that changes the store: insertNote, ingestCommitment or markSpent. */
  datatype Op = Insert(note: SpendableNote) | Ingest(event: Event) | Mark(nullifier: nat)

  function Apply(wallet: Wallet, m: Memory, op: Op): Memory {
    match op
    case Insert(n) => m.(notes := Put(m.notes, ToDecimal(n.commitment), n))
    case Ingest(e) =>
      if wallet.Claim(e).None? then m
      else m.(notes := Put(m.notes, ToDecimal(e.commitment), wallet.Claim(e).value))
    case Mark(k) => m.(spent := m.spent + {ToDecimal(k)})
  }

  /** Whether the call ends in a write to disk. */
  predicate Writes(wallet: Wallet, op: Op) {
    op.Ingest? ==> wallet.Claim(op.event).Some?
  }

  /** Each field of a written note is the text of the note's field of that name. */
  lemma WrittenFields(n: SpendableNote)
    ensures var p := WriteNote(n);
            && FromDecimal(p.tokenMint) == Some(n.plain.tokenMint) && FromDecimal(p.value) == Some(n.plain.value)
            && FromDecimal(p.random) == Some(n.plain.random) && FromDecimal(p.spendingPub) == Some(n.plain.spendingPub)
            && FromDecimal(p.spendingPriv) == Some(n.spendingPriv) && FromDecimal(p.commitment) == Some(n.commitment)
            && FromDecimal(p.leafIndex) == Some(n.leafIndex)
            && HexToBytes(p.ciphertext) == Some(n.encrypted.ciphertext)
            && HexToBytes(p.ephemeralPub) == Some(n.encrypted.ephemeralPub)
            && HexToBytes(p.viewingTag) == Some(n.encrypted.viewingTag)
  {
    DecimalRoundTrip(n.plain.tokenMint);
    DecimalRoundTrip(n.plain.value);
    DecimalRoundTrip(n.plain.random);
    DecimalRoundTrip(n.plain.spendingPub);
    DecimalRoundTrip(n.spendingPriv);
    DecimalRoundTrip(n.commitment);
    DecimalRoundTrip(n.leafIndex);
    HexRoundTrip(n.encrypted.ciphertext);
    HexRoundTrip(n.encrypted.ephemeralPub);
    HexRoundTrip(n.encrypted.viewingTag);
  }

  lemma ReadWriteNote(n: SpendableNote)
    ensures ReadNote(WriteNote(n)) == Some(n)
  {
    WrittenFields(n);
  }

  /** Restoring stops at the first note that cannot be read, and what it puts in are the notes before that one. */
  lemma {:induction false} ReadNotesIs(read: PersistedNote -> Option<SpendableNote>, into: seq<Entry>, notes: seq<PersistedNote>)
    returns (count: nat)
    ensures var (restored, complete) := ReadNotes(read, into, notes);
            && count <= |notes| && (complete <==> count == |notes|)
            && (forall i :: 0 <= i < count ==> read(notes[i]).Some?)
            && (count < |notes| ==> read(notes[count]).None?)
            && forall k :: Has(restored, k) <==> Has(into, k) || exists i :: 0 <= i < count && notes[i].commitment == k
    decreases |notes|
  {
    if notes == [] || read(notes[0]).None? {
      count := 0;
    } else {
      var key, note := notes[0].commitment, read(notes[0]).value;
      var rest := ReadNotesIs(read, Put(into, key, note), notes[1..]);
      count := rest + 1;
      forall k
        ensures Has(Put(into, key, note), k) || (exists i :: 0 <= i < rest && notes[1..][i].commitment == k)
                <==> Has(into, k) || exists i :: 0 <= i < count && notes[i].commitment == k
      {
        PutHas(into, key, note, k);
        if i :| 0 <= i < rest && notes[1..][i].commitment == k {
          assert notes[i + 1].commitment == k;
        }
        if i :| 0 <= i < count && notes[i].commitment == k {
          assert i > 0 ==> notes[1..][i - 1].commitment == k;
        }
      }
    }
  }

  lemma {:induction false} ReadInOrder(read: PersistedNote -> Option<SpendableNote>, notes: seq<Entry>,
                                       written: seq<PersistedNote>, done: nat)
    requires DistinctKeys(notes) && done <= |notes| == |written|
    requires forall i {:trigger written[i]} :: 0 <= i < |notes| ==>
               read(written[i]) == Some(notes[i].note) && written[i].commitment == notes[i].key
    ensures ReadNotes(read, notes[..done], written[done..]) == (notes, true)
    decreases |notes| - done
  {
    if done == |notes| {
      assert notes[..done] == notes;
    } else {
      assert written[done..][0] == written[done];
      PutAbsent(notes[..done], notes[done].key, notes[done].note);
      assert notes[..done + 1] == notes[..done] + [notes[done]];
      assert written[done..][1..] == written[done + 1..];
      ReadInOrder(read, notes, written, done + 1);
    }
  }

  lemma HydrateSnapshotWith(read: PersistedNote -> Option<SpendableNote>, m: Memory)
    requires WellKeyed(m.notes)
    requires forall n {:trigger WriteNote(n)} :: read(WriteNote(n)) == Some(n)
    ensures HydratedWith(read, EMPTY, Snapshot(m)) == m
  {
    var written := WriteNotes(m.notes);
    forall i {:trigger written[i]} | 0 <= i < |written|
      ensures read(written[i]) == Some(m.notes[i].note) && written[i].commitment == m.notes[i].key
    {
      WriteNotesAt(m.notes, i);
    }
    ReadInOrder(read, m.notes, written, 0);
    assert written[0..] == written && m.notes[..0] == [];
  }

  /** Hydrating a fresh store from a snapshot restores notes, their order, the spent set and the cursor. */
  lemma HydrateSnapshot(m: Memory)
    requires WellKeyed(m.notes)
    ensures Hydrated(EMPTY, Snapshot(m)) == m
  {
    forall n
      ensures ReadNote(WriteNote(n)) == Some(n)
    {
      ReadWriteNote(n);
    }
    HydrateSnapshotWith(ReadNote, m);
  }

  /** A version 1 file has no cursor; everything else comes back. */
  lemma HydrateV1(m: Memory, cursor: Option<Sig>)
    requires WellKeyed(m.notes)
    ensures Hydrated(EMPTY, Json(1, WriteNotes(m.notes), m.spent, cursor)) == m.(cursor := None)
  {
    HydrateSnapshot(m);
  }

  lemma {:induction false} ReadUntilDamage(read: PersistedNote -> Option<SpendableNote>, notes: seq<Entry>,
                                           written: seq<PersistedNote>, k: nat, done: nat)
    requires DistinctKeys(notes) && done <= k < |notes| == |written|
    requires forall i {:trigger written[i]} :: 0 <= i < k ==>
               read(written[i]) == Some(notes[i].note) && written[i].commitment == notes[i].key
    requires read(written[k]) == None
    ensures ReadNotes(read, notes[..done], written[done..]) == (notes[..k], false)
    decreases k - done
  {
    assert written[done..][0] == written[done];
    if done < k {
      PutAbsent(notes[..done], notes[done].key, notes[done].note);
      assert notes[..done + 1] == notes[..done] + [notes[done]];
      assert written[done..][1..] == written[done + 1..];
      ReadUntilDamage(read, notes, written, k, done + 1);
    }
  }

  lemma DamageWith(read: PersistedNote -> Option<SpendableNote>, m: Memory, k: nat, bad: PersistedNote)
    requires WellKeyed(m.notes) && k < |m.notes| && read(bad) == None
    requires forall n {:trigger WriteNote(n)} :: read(WriteNote(n)) == Some(n)
    ensures HydratedWith(read, EMPTY, Json(2, WriteNotes(m.notes)[k := bad], m.spent, m.cursor)) == Memory(m.notes[..k], {}, None)
  {
    var written := WriteNotes(m.notes)[k := bad];
    forall i {:trigger written[i]} | 0 <= i < k
      ensures read(written[i]) == Some(m.notes[i].note) && written[i].commitment == m.notes[i].key
    {
      WriteNotesAt(m.notes, i);
    }
    ReadUntilDamage(read, m.notes, written, k, 0);
    assert written[0..] == written && m.notes[..0] == [];
  }

  /**
   One note that cannot be parsed ends hydration there: the notes before it come back, but none of the
   spent set and no cursor, so those of them that were spent are spendable again.
   */
  lemma HydrateDamaged(m: Memory, k: nat, bad: PersistedNote)
    requires WellKeyed(m.notes) && k < |m.notes| && ReadNote(bad) == None
    ensures Hydrated(EMPTY, Json(2, WriteNotes(m.notes)[k := bad], m.spent, m.cursor)) == Memory(m.notes[..k], {}, None)
  {
    forall n {:trigger WriteNote(n)}
      ensures ReadNote(WriteNote(n)) == Some(n)
    {
      ReadWriteNote(n);
    }
    DamageWith(ReadNote, m, k, bad);
  }
}
