# Verified model of the b402 private pool

A Dafny model of the parts of the repository on which its users' money depends, with proofs over every
input, every run and every reachable state:

- the incremental Merkle tree in its three copies (Rust client, TypeScript client, pool program), its two
  provers, its verifier and the pool's ring of recent roots;
- the wallet's note store: paging through a history that grows while it is read, a cursor, a snapshot file
  whose writes may fail, restarts, and the balances and polling cursor built on top;
- the Kamino adapter in its `per_user_obligation` build, against a lender about which only stated
  assumptions are made;
- the relayer's request limiter, its signature extraction and the two base-58 encoders;
- the field-element codecs, the domain-tag encoders, the note plaintext codec and the sorted nullifier shard.

Objects that the source updates in place are classes, loops that update variables are methods with
invariants, and both are proved against functions about which the lemmas speak.

## How to read it

`MerkleSpec.dfy` defines the full tree over a padded leaf list (`Subtree`, `Root`) and the closed form of
the frontier (`FrontierAt`). The three tree classes keep `Valid()`, which equates `root` and every frontier
entry with those definitions, whatever was appended. The hash is an uninterpreted function of two field
elements, the depth is any number from 1 up, and binding is proved without assuming anything of the hash:
an accepted proof is the real path or exhibits a collision.

The note store is spread over several files. `Paging.dfy` says which signatures a backfill asks for.
`Scanning.dfy` gives every call as a function on a `Moment` (memory, snapshots written, and what has been
scanned, fetched and put into the map so far) and proves what a cursor promises over these functions.
`NoteStore.dfy` has the classes: the node (`Rpc`), whose history may grow before every signatures call and
whose calls and fetches may fail in any pattern; the snapshot file (`Disk`), whose writes may fail in any
pattern; and the store, each of whose methods is tied to those functions by an equation. A signature is its
position in the history. `Valid()` of the store is the cursor's promise, for the memory and for every snapshot
ever written; each public method keeps it. `NoteRuns.dfy` folds whole runs of inserts, claims, spends and
restarts, and `StoreDrivers.dfy` drives the store itself through them and invokes backfill over and over.
`Overlap.dfy` lets backfill calls overlap: each runs in the steps between which it awaits, amid the others,
inserts, claims, spends, failing writes and crashes at any point, on one store and one file. `Alone.dfy` shows
that a call whose steps nothing interrupts comes to exactly what `NoteStore.Backfill` does.

`KaminoAdapter.dfy` names accounts by position, so any two of a call's accounts may be one account. The
lender is a pair of partial functions on the state. Assumed of it (`Honest`): it serves an obligation's owner
through a token account of that owner, takes exactly the deposit amount, only credits on a withdrawal, touches
no other outside account, and changes only the named obligation, by one slot. `SeparateKeys` says that the
adapter's authority, the lender's and the derived owners differ. `read_reserve_liquidity_mint`, which
`execute` calls and the repository does not define, is a parameter of the call. Part of the state is the list
`made` of the lender's set-up instructions that were carried out. `KaminoOutcome.dfy` says of a call's own
arguments, accounts and lender when it succeeds, which error it otherwise gets, and in which state it ends;
`KaminoWitness.dfy` has a lender that meets the
assumptions, and a deposit and a withdrawal that succeed on it.

## What the proofs say about the code

Where code and documentation disagree, the model follows the code.

- Both trees accept exactly 2^depth - 1 leaves. A refused append has already pushed its leaf into the client's
  list; later full proofs hash it in, and match the kept root if it is the zero leaf and otherwise only by a
  hash collision (`MerkleParity.FullProofAgainstKeptRoot`, `MerkleParity.RefusedLeafSpoilsProofs`).
- `verify` never reads `leaf_index`; the position an accepted proof binds is the one its path bits spell.
- The pool's root ring starts as zeros, so the root 0 is recognised until 127 leaves have been appended.
- `insertNote` replaces a note it already holds, although its comment calls that a no-op.
- A walk of ten full pages counts as truncated even when the tenth ends exactly at the old cursor. The next
  call starts at the head again rather than where the last one stopped, so with the same limit every later call
  that is not rejected is truncated again and none gets further down (`StoreDrivers.StuckForGood`,
  `StoreDrivers.NeverCatchesUp`), although the result's comment tells callers to re-invoke it.
- A fetch that rejects is skipped and the cursor still moves past it, so the cursor promises the notes of
  fetched transactions only. A signatures call that rejects ends the walk; in `genesis` mode the cursor is gone
  by then, as it is after a truncated walk.
- A backfill on its own, other than one from `genesis`, never moves the cursor back. Overlapping ones can, exactly
  when one ends on a short page, scanned anything, and began at or below where another has moved the cursor
  (`Overlap.FallsIff`, `Overlap.CursorCanFall`).
- However calls overlap, the cursor promises the notes of every transaction whose logs some call has taken in. It
  does not promise those of logs that a call still has in hand: another call, whose own fetch of the transaction
  was rejected, can move the cursor past it, and a crash then loses the note for good. Nothing is missed exactly
  while the cursor has passed no logs in hand of which a note is still to come (`Overlap.MissedIffInHand`,
  `Overlap.LogsInHandCanBeLost`).
- A spend whose snapshot write succeeded is final. One whose write failed is lost by the next restart unless a
  later write before it succeeds or the commitment was marked on disk already
  (`NoteRuns.MarkSurvivesIff`, `NoteRuns.UnwrittenMarkIsForgotten`).
- One note in the snapshot that cannot be parsed ends hydration there: the notes before it come back without
  the spent set, so those of them that were spent are spendable again (`NoteData.HydrateDamaged`).
- `watchIncoming` never delivers a note that turns up at or below its cursor.
- `base58Encode` appends one '1' too many on empty and all-zero input, and nowhere else.
- The request limiter's header promises a sliding window. The code keeps a fixed one, and lets through up to
  2 * limit - 1 requests in a minute, never more; it keeps the sliding promise exactly for limits up to one
  (`RateLimit.SlidingIff`).
- In the per-user build a deposit never adds to `adapter_out_ta`, so a deposit with a positive
  `min_out_amount` always fails.
- A reserve whose key is the default key, which also marks free slots, never passes `refresh_obligation`.

## Model

| member | source | states |
|---|---|---|
| MerkleWalk.ComputeZeroCache | packages/crypto/src/merkle.rs:12-19 | Entry d of the cache is the root of the empty subtree of height d, by the definition of the full tree |
| MerkleSpec.ZeroStep | packages/sdk/src/merkle.ts:14-20 | The empty subtree one level up is the hash of two copies of the one below, which is what makes the cache loop right |
| RustMerkle.MerkleTree.NewClient | packages/crypto/src/merkle.rs:44-54 | A fresh tree is valid: its root is that of the empty padded tree, its leaf list is kept |
| RustMerkle.MerkleTree.NewOnChain | packages/crypto/src/merkle.rs:56-67 | The same without a leaf list |
| RustMerkle.MerkleTree.Append | packages/crypto/src/merkle.rs:71-107 | Keeps root equal to the full tree's root and every frontier entry in its closed form; answers the index and the new root; panics exactly at 2^depth - 1 leaves, with the leaf already in the list |
| MerkleWalk.WalkToRoot | packages/crypto/src/merkle.rs:88-97 | The inner walk from a node above the new leaf ends in the root of the full tree with that leaf |
| MerkleWalk.StoreAndWalk | packages/sdk/src/merkle.ts:110-122 | Storing the node at the lowest zero bit and walking up gives the frontier and root of one more leaf |
| MerkleSpec.UpStep | packages/crypto/src/merkle.rs:79-106 | Hashing with the zero subtree at a 0 bit and with the frontier at a 1 bit climbs the new leaf's path |
| MerkleSpec.FrontierStep | packages/crypto/src/merkle.rs:82 | One append changes one frontier entry, the one at the lowest zero bit of the leaf count, to its new closed form |
| MerkleSpec.FrontierKept | packages/crypto/src/merkle.rs:86-87 | Every other frontier entry, stale ones included, keeps its closed form |
| MerkleSpec.CompleteSubtree | packages/crypto/src/merkle.rs:86-87 | A node whose leaves are all present no longer depends on later leaves |
| MerkleSpec.TracksStep | packages/sdk/src/merkle.ts:105-122 | The append at the lowest zero bit leads from a tracked state of n leaves to one of n + 1, and never fills the last slot |
| ClientMerkle.ClientMerkleTree.constructor | packages/sdk/src/merkle.ts:74-86 | A fresh client tree is valid and not initialised |
| ClientMerkle.ClientMerkleTree.Init | packages/sdk/src/merkle.ts:88-96 | Fills cache and root once; a second call changes nothing |
| ClientMerkle.ClientMerkleTree.Append | packages/sdk/src/merkle.ts:98-124 | The two-loop append keeps the same root and frontier definitions; throws when not initialised, without a change, and at capacity, with the leaf pushed |
| PoolTree.TreeState.constructor | programs/b402-pool/src/instructions/init_pool.rs:96-133 | The account is created valid, with the empty root in ring slot 0 |
| PoolTree.TreeState.Append | programs/b402-pool/src/util.rs:22-61 | The on-chain append keeps the same definitions, answers the new root, and at capacity fails without a change |
| PoolTree.TreeState.RecordRoot | programs/b402-pool/src/util.rs:57-60 | The ring goes on holding the roots of the last 128 states |
| PoolTree.TreeState.HasRecentRoot | programs/b402-pool/src/util.rs:63-65 | True exactly for the roots of the last 128 states, and for 0 while a slot is unwritten |
| PoolTree.RootExpiresExactly | programs/b402-pool/src/constants.rs:14-22 | With an injective hash and no zero leaves, the root of any past state is recognised for exactly 127 further appends |
| PoolTree.ZeroRecognised | programs/b402-pool/src/util.rs:63-65 | The root 0, which no state has, is recognised exactly while fewer than 127 leaves have been appended |
| MerkleParity.SameLeavesSameState | programs/b402-pool/src/util.rs:20-21 | Three trees that accepted the same leaves agree on leaf count, root and the whole frontier |
| MerkleParity.Replay | packages/sdk/src/merkle.ts:98-124 | Any sequence of leaves into all three: leaf i is answered with index i and the root of the first i + 1 leaves by each, for the first 2^depth - 1 leaves, and every later one is refused by each; the three end in step |
| RustMerkle.MerkleTree.Prove | packages/crypto/src/merkle.rs:110-159 | None exactly without a leaf list or past the leaf count; otherwise leaf, siblings, bits and root are those of the full tree |
| ClientMerkle.ClientMerkleTree.Prove | packages/sdk/src/merkle.ts:126-159 | The same, with the two errors the code throws |
| MerkleWalk.NextLevel | packages/crypto/src/merkle.rs:133-145 | One round pairs the nodes of a level, an odd last one with the zero subtree |
| MerkleSpec.PairsMakeNextLevel | packages/crypto/src/merkle.rs:133-146 | The round turns the full tree's nodes of one level into those of the next |
| MerkleWalk.Verify | packages/crypto/src/merkle.rs:163-173 | Accepts exactly when the path folds to its root; the written leaf index plays no part |
| MerkleSpec.PathAccepted | packages/crypto/src/merkle.rs:163-173 | Every path of the full tree is accepted |
| MerkleParity.FullProofAgainstKeptRoot | packages/sdk/src/merkle.ts:98-159 | A client's full proof is accepted, and is against the incrementally kept root if no append was refused; after a refusal it is if the first refused leaf is the zero leaf, and otherwise only if that leaf's path exhibits a hash collision |
| MerkleParity.RustProofAgainstKeptRoot | packages/crypto/src/merkle.rs:71-173 | The same for the Rust client |
| MerkleParity.RefusedLeafSpoilsProofs | packages/sdk/src/merkle.ts:98-159 | A client of depth 1 offered two leaves, both of which it holds: the second is refused, and unless it is zero or collides the proof of the first no longer matches the kept root |
| MerkleSpec.RootAfterRejection | packages/sdk/src/merkle.ts:101-108 | Hashing a refused leaf in leaves the root alone if it is the zero leaf, and otherwise only if the leaf's path runs into a collision; with an injective hash there is none |
| MerkleSpec.AcceptedProofBinds | packages/crypto/src/merkle.rs:163-173 | Without any assumption on the hash: a proof accepted against a tree's root is the real path of the position its bits spell, or its first difference from the tree is a collision |
| MerkleSpec.AcceptedProofIsReal | packages/crypto/src/merkle.rs:163-173 | With an injective hash it is the real path, so no other leaf can be proved there |
| MerkleSpec.RootBindsLeaves | packages/crypto/src/merkle.rs:163-173 | With an injective hash, equal roots mean equal padded leaves |
| MerkleSpec.RootOfHalves | packages/crypto/src/merkle.rs:163-173 | The root hashes the roots of the first and of the second half of the padded leaves, in that order, down to single leaves and the zero leaf |
| MerkleSpec.PathBitsSpellIndex | packages/crypto/src/merkle.rs:122-123 | The bits a prover writes spell the index it was asked for |
| MerkleParity.ProveMostRecentLeaf | packages/sdk/src/merkle.ts:44-64 | Succeeds exactly on a nonnegative index and caches of the right length; siblings come from the frontier at 1 bits and from the zero cache at 0 bits |
| MerkleParity.NewestSibling | packages/sdk/src/merkle.ts:36-42 | After an append, that choice is the true sibling of the newest leaf at every level |
| MerkleParity.ShortcutIsPath | packages/sdk/src/merkle.ts:44-64 | The shortcut's answer is the newest leaf's path in the full tree |
| MerkleParity.ShortcutEqualsFullProof | packages/sdk/src/merkle.ts:30-64 | Built from the pool's own frontier, the shortcut proof equals the full prover's, and is accepted |
| Base58.MulAdd | packages/relayer/src/submit.ts:314-322 | One byte into the digit buffer multiplies its value by 256 and adds the byte; digits stay below 58 and the top digit nonzero (the carry it passes on never exceeds a byte) |
| Base58.Base58Encode | packages/relayer/src/submit.ts:305-328 | Base 58 of the big-endian integer as defined, plus one '1' exactly when no byte is nonzero |
| Base58.Bs58Encode | packages/sdk/src/kamino-discover.ts:222-234 | Base 58 as defined, on every input; hence equal to the other encoder on every input with a nonzero byte |
| Base58.DecodeEncode | packages/sdk/src/kamino-discover.ts:222-234 | Decoding an encoding returns the bytes, leading zeros included |
| Base58.EncodeDecode | packages/sdk/src/kamino-discover.ts:222-234 | A text decodes exactly if all its characters are in the alphabet, and encoding what it decodes to gives the text back, so no other text does |
| Base58.AlphabetIs | packages/relayer/src/submit.ts:304 | The alphabet is 58 characters in ascending order: exactly the digits and letters other than 0, I, O and l |
| Base58.CharIndexIff | packages/sdk/src/kamino-discover.ts:223 | A character has a position exactly if it is in the alphabet, and it stands there |
| Base58.TwoDigits | packages/relayer/src/submit.ts:314-325 | Two bytes whose integer has two digits are written as these, the higher one first |
| Base58.ZeroInFront | packages/relayer/src/submit.ts:311-326 | A zero byte in front adds a '1' in front |
| Base58.RebaseBack | packages/relayer/src/submit.ts:305-328 | Rewriting in another base and back is the identity on digit strings, leading zeros included |
| Signatures.RecoverFirstSignature | packages/relayer/src/submit.ts:286-302 | Reads at most four bytes of count; fails on a longer count and on zero; otherwise the text of the 64 bytes behind it, clipped at the end |
| Signatures.ReadCount | packages/relayer/src/submit.ts:289-298 | The bit loop computes the number its seven-bit groups spell, and where it ends |
| Signatures.CountOfCompact | packages/relayer/src/submit.ts:285-298 | A compact length is read back, with its exact end, if and only if it fits the groups that are read |
| Signatures.RecoveredDecodes | packages/relayer/src/submit.ts:284-302 | From a well-formed transaction the text decodes to the signature, if and only if the signature is not all zeros |
| Signatures.RecoveredIs | packages/relayer/src/submit.ts:286-302 | On every wire: an error exactly on a count of more than four groups or of zero, otherwise the text of the 64 bytes behind it or of what is left of them |
| Signatures.CountIs | packages/relayer/src/submit.ts:289-298 | The count weighs the low seven bits of its bytes by 1, 128, 128^2 and 128^3, up to the first byte below 128; bytes past the end read as zero |
| Signatures.ExtraOneIsExtraZero | packages/relayer/src/submit.ts:311-326 | On zero bytes the text is the encoding of one zero byte more |
| FieldCodec.IsBelow | packages/crypto/src/fr.rs:23-55 | The comparison from the top byte down decides the order of the little-endian integers |
| FieldCodec.FromLeBytes | packages/crypto/src/fr.rs:23-55 | Accepts 32 bytes exactly when their integer is below the modulus, and answers that integer |
| FieldCodec.LeToFr | packages/shared/src/encoding.ts:18-24 | Accepts and answers the same as the Rust decoder |
| FieldCodec.LeToBig | packages/sdk/src/merkle.ts:23-27 | The little-endian integer of any byte string |
| FieldCodec.FrToLe | packages/shared/src/encoding.ts:6-15 | The 32 low bytes of a field element; anything out of range is refused |
| FieldCodec.LeBytesWrap | packages/crypto/src/fr.rs:61-67 | n bytes hold an integer modulo 256^n |
| FieldCodec.ModulusBytes | packages/crypto/src/fr.rs:23-40 | The byte string the Rust decoder compares with denotes the modulus |
| FieldCodec.DecodeEncode | packages/shared/src/encoding.ts:6-24 | Decoding inverts encoding on every field element |
| FieldCodec.EncodeDecode | packages/crypto/src/fr.rs:23-67 | Encoding inverts decoding on every accepted byte string |
| DomainTags.TagFrLe | programs/b402-pool/src/constants.rs:54-72 | The tag's bytes reversed and padded to 32, a longer tag panics |
| DomainTags.FromTag | packages/crypto/src/fr.rs:80-89 | The tag's big-endian integer, with no reduction |
| DomainTags.TagToFr | packages/shared/src/encoding.ts:35-40 | The shifted code units, reduced; when every code unit is a byte, the same integer, unreduced |
| DomainTags.CodeValueOfBytes | packages/shared/src/encoding.ts:35-40 | Shifting bytes in spells their big-endian integer |
| DomainTags.ShiftInBits | packages/shared/src/encoding.ts:37-39 | Shifting a code unit in moves every bit up by eight and sets the bits of the code unit |
| DomainTags.OrBits | packages/shared/src/encoding.ts:38 | The union of two numbers has a bit exactly if one of them has it |
| DomainTags.TagBelowModulus | packages/shared/src/encoding.ts:35-40 | No tag of at most 31 bytes reaches the modulus |
| DomainTags.EncodersAgree | programs/b402-pool/src/constants.rs:54-72 | The pool's bytes are the canonical encoding of the element the other two compute |
| DomainTags.TagsCollideIff | packages/crypto/src/fr.rs:80-89 | Two tags collide exactly when they differ in leading NUL bytes only; with nonzero first bytes they are equal |
| NoteCodec.SerializeNote | packages/sdk/src/note-encryption.ts:31-43 | The 73 bytes: value modulo 2^64, random, mint, version; a field out of range is refused |
| NoteCodec.DeserializeNote | packages/sdk/src/note-encryption.ts:45-54 | Reads the layout back; wrong length, version or a non-canonical field is refused |
| NoteCodec.DeserializeSerialize | packages/sdk/src/note-encryption.ts:31-54 | Reading what was written gives the note, its value cut to 64 bits |
| NoteCodec.SerializeDeserialize | packages/sdk/src/note-encryption.ts:31-54 | Every accepted plaintext is the one that writing its note gives |
| NoteCodec.NoncesDiffer | packages/sdk/src/note-encryption.ts:63-69 | No two leaf indices share a nonce |
| NoteCodec.NonceIs | packages/sdk/src/note-encryption.ts:63-69 | Twelve bytes: the first eight denote the index, the last four are zero; an index outside 64 bits is refused |
| TextCodec.DecimalRoundTrip | packages/sdk/src/note-store.ts:365-434 | The decimal text of a snapshot field reads back as the number |
| TextCodec.DecimalIs | packages/sdk/src/note-store.ts:365-394 | Decimal text is the text of the tens and one digit of 0123456789 behind it |
| TextCodec.FromDecimalIff | packages/sdk/src/note-store.ts:409-417 | A text reads as a number exactly if it is all decimal digits, and then by place value |
| TextCodec.HexRoundTrip | packages/sdk/src/note-store.ts:443-452 | hexToBytes inverts bytesToHex on every byte string |
| TextCodec.HexAt | packages/sdk/src/note-store.ts:443-445 | Each byte is two lower-case hexadecimal digits, the high half first |
| TextCodec.HexToBytesIff | packages/sdk/src/note-store.ts:447-452 | Only an odd length is refused; two hexadecimal digits of either case read as the byte they spell |
| NoteData.HydrateSnapshot | packages/sdk/src/note-store.ts:365-434 | On version 2 snapshots hydrate after persist is the identity on notes, their order, the spent set and the cursor |
| NoteData.HydrateV1 | packages/sdk/src/note-store.ts:424-429 | A version 1 file gives back everything but the cursor |
| NoteData.HydrateDamaged | packages/sdk/src/note-store.ts:409-433 | A file with one unreadable note gives back the notes before it, an empty spent set and no cursor |
| NoteData.WrittenFields | packages/sdk/src/note-store.ts:365-394 | Every field of a written note is the decimal or hexadecimal text of the note's field of that name |
| NoteData.ReadNotesIs | packages/sdk/src/note-store.ts:409-423 | Of any list of notes exactly those before the first unreadable one are put in, under the commitment text the file gives them |
| NoteData.PutAt | packages/sdk/src/note-store.ts:163-166 | Setting a present commitment replaces that entry where it stands and changes no other |
| NoteData.PutAbsent | packages/sdk/src/note-store.ts:163-166 | Setting an absent commitment adds it behind all others |
| NoteData.SpendableIff | packages/sdk/src/note-store.ts:114-131 | A note is listed exactly if it is held, unspent and in the filter |
| NoteData.SpendableInOrder | packages/sdk/src/note-store.ts:114-131 | The answer is the notes at a strictly increasing list of map positions, and these are exactly the positions of an unspent note that passes the filter |
| NoteData.SpendableOnce | packages/sdk/src/note-store.ts:114-131 | In a well-keyed map no commitment is listed twice |
| NoteData.FreshInOrder | packages/sdk/src/note-store.ts:138-147 | The same of the query above a leaf index, before it sorts |
| NoteData.FreshOnce | packages/sdk/src/note-store.ts:138-148 | No note is listed twice |
| NoteData.SortByLeafSorts | packages/sdk/src/note-store.ts:138-148 | The sorted list is ascending and holds the same notes as often |
| NoteData.SortIsStable | packages/sdk/src/note-store.ts:138-148 | Notes of one leaf index keep their order |
| NoteData.AbsorbCovers | packages/sdk/src/note-store.ts:271-291 | After running events past the wallet the map holds every one it can claim, and everything it held |
| NoteData.AbsorbAppends | packages/sdk/src/note-store.ts:271-291 | What was in the map stays where and as it is; each entry behind it is the wallet's claim of one of the events, under its commitment |
| NoteData.AbsorbConcat | packages/sdk/src/note-store.ts:254-293 | Events may be taken in any portions |
| NoteStore.NoteStore.constructor | packages/sdk/src/note-store.ts:86-112 | A new process starts empty and sound over whatever is on disk |
| NoteStore.NoteStore.Hydrate | packages/sdk/src/note-store.ts:398-434 | Takes over any file: nothing of an unknown version, the notes up to the first that cannot be read, and only a file read to its end gives its spent set and its cursor |
| NoteStore.NoteStore.Start | packages/sdk/src/note-store.ts:398-434 | A started store hydrates from the file; what this store wrote it takes over exactly, and is sound again |
| NoteStore.NoteStore.Persist | packages/sdk/src/note-store.ts:365-394 | A write that succeeds records the whole memory; one that fails leaves file and memory alone; either is counted |
| NoteStore.NoteStore.MarkSpent | packages/sdk/src/note-store.ts:150-153 | Adds one commitment to the spent set, writes, and changes nothing else; the cursor's promise stays |
| NoteStore.NoteStore.InsertNote | packages/sdk/src/note-store.ts:163-166 | Sets the note under its commitment, replacing one that is there, writes, and changes nothing else; the cursor's promise stays |
| NoteStore.NoteStore.IngestCommitment | packages/sdk/src/note-store.ts:322-355 | Succeeds exactly if decryption gives a plaintext that the wallet's commitment function maps to the event's commitment and that names the wallet's key; then the entry under that commitment holds exactly this plaintext, the wallet's private key and the event's commitment, leaf index and encrypted part, and otherwise nothing changes |
| NoteData.ClaimIs | packages/sdk/src/note-store.ts:322-355 | The claim by which the lemmas speak of an event is that note, and there is none otherwise |
| NoteStore.NoteStore.GetSpendable | packages/sdk/src/note-store.ts:114-131 | The unspent notes of the filter in map order, by the function whose positions SpendableInOrder fixes |
| NoteStore.NoteStore.GetSpendableSince | packages/sdk/src/note-store.ts:138-148 | Those above a leaf index, sorted by it |
| NoteStore.Rpc.GetSignatures | packages/sdk/src/note-store.ts:228-232 | The node's contract: a rejection, or the first limit signatures strictly older than before and strictly newer than until, newest first, of a history that may just have grown |
| NoteStore.NoteStore.ProcessTx | packages/sdk/src/note-store.ts:252-293 | A failed transaction is not fetched, a rejected fetch is skipped, and exactly a fetched one's events are taken in, in order; the fetch count, the map and the three counters are exact |
| NoteStore.NoteStore.ProcessPage | packages/sdk/src/note-store.ts:254-290 | A page leaves exactly what scanning its signatures one after the other leaves, and counts it |
| Paging.TurnPage | packages/sdk/src/note-store.ts:233-300 | After a signatures call: the newest signature of the first page is kept, the next page starts right below the last, and the walk ends after a short page, the tenth page or a rejection |
| Paging.TurnWalks | packages/sdk/src/note-store.ts:233-300 | Turning the page keeps the walk gapless, and ends it at the cursor or after ten full pages |
| NoteStore.NoteStore.WalkPages | packages/sdk/src/note-store.ts:227-304 | Whatever arrives in between, the pages are one gapless descending range, each signature once, ending at the old cursor, after ten full pages or at a rejected call; it leaves exactly the scan of that range |
| NoteStore.NoteStore.Backfill | packages/sdk/src/note-store.ts:196-315 | The signatures scanned are consecutive downwards from the head or from before; unless rejected they are all down to the old cursor, or with genesis to the beginning whatever the cursor was, or ten times limit if that many are there, which is when it is truncated. The cursor ends at the newest of them, and is written, exactly if anything was scanned and the walk was neither truncated nor rejected; otherwise it is the old one, or none with genesis. Memory, disk and counters are exactly those of the scan; the cursor's promise stays |
| Paging.CursorMovesForward | packages/sdk/src/note-store.ts:296-312 | What a walk scanned is exactly the range down to the old cursor unless truncated, no signature twice, and its newest signature is above the cursor |
| Paging.CutShortIff | packages/sdk/src/note-store.ts:233-300 | A walk is truncated exactly if limit is positive and at least ten times limit signatures lie above the cursor |
| StoreDrivers.Reinvoke | packages/sdk/src/note-store.ts:196-305 | Backfill invoked n times from the head: n rounds that lead, one after the other, from the store's state before to its state after, each leaving exactly the scan of its walk, its cursor move and its answer |
| StoreDrivers.RoundExact | packages/sdk/src/note-store.ts:233-300 | A round that is not rejected is truncated exactly if ten pages fit between cursor and head; what it scans is added to the store's record, and untruncated it is the whole range |
| StoreDrivers.StuckForGood | packages/sdk/src/note-store.ts:196-305 | If ten pages fit before the first of any rounds, every one of them is truncated unless a call is rejected, the cursor stays, and the store's record gains no signature below the first ten pages |
| StoreDrivers.NeverCatchesUp | packages/sdk/src/note-store.ts:196-305 | With eleven transactions and pages of one, however often backfill is invoked, every call is truncated and the store has never scanned the oldest |
| NoteStore.WalkSound | packages/sdk/src/note-store.ts:300-312 | A walk keeps the cursor's promise, and one that was not cut short leaves nothing unscanned at or below its newest signature |
| Scanning.ScanAllIs | packages/sdk/src/note-store.ts:254-293 | Scanning absorbs exactly the events of the transactions that come back with logs, in order, whatever happens to the other fetches; records exactly which those were; and writes once for each new note |
| Scanning.ScanAllSound | packages/sdk/src/note-store.ts:254-293 | Scanning keeps the cursor's promise, in memory and in every snapshot written on the way |
| Scanning.ScanAllGives | packages/sdk/src/note-store.ts:271-291 | A note that scanning puts into the map is the wallet's claim of an event it gathered |
| Scanning.RecoveredSound | packages/sdk/src/note-store.ts:398-434 | What a snapshot's cursor promised still holds of the store restarted from it |
| Scanning.CrashSafe | packages/sdk/src/note-store.ts:365-434 | Whichever snapshot a crash leaves, all signatures at or older than the saved cursor have been through the fetch step, and for each event of a fetched one that the wallet claims the hydrated store holds, under its commitment, a note with that commitment that was claimed or inserted before |
| NoteRuns.RunIsReplay | packages/sdk/src/note-store.ts:150-166 | Over any run with failing writes and restarts, memory and file are the replay of the mutations that count |
| StoreDrivers.Drive | packages/sdk/src/note-store.ts:150-166 | Driving the store and its disk through any run of calls, failing writes and restarts leaves them as the run's fold says |
| NoteRuns.SpendableOverRuns | packages/sdk/src/note-store.ts:114-166 | Over any such run, spendable is exactly added minus marked among those mutations |
| NoteRuns.AllWrittenKeepsAll | packages/sdk/src/note-store.ts:365-434 | If every write succeeds, restarts lose nothing |
| NoteRuns.SpendableWhenAllWritten | packages/sdk/src/note-store.ts:114-355 | Then spendable is exactly everything ever added minus everything ever marked |
| NoteRuns.MarkedForever | packages/sdk/src/note-store.ts:150-153 | A spend whose write succeeded is never undone, by re-inserts, failed writes or restarts |
| NoteRuns.MarkSurvivesIff | packages/sdk/src/note-store.ts:365-394 | A spend survives the next restart if and only if its own write or a later one before the restart succeeded, or the commitment was marked on disk before |
| NoteRuns.SpendableAfterRestartIff | packages/sdk/src/note-store.ts:365-394 | After that restart the commitment is spendable if and only if it is on disk and no such mark is |
| NoteRuns.UnwrittenMarkIsForgotten | packages/sdk/src/note-store.ts:365-394 | After any run that has not marked it, a note inserted with its mark unwritten is spendable again after a restart |
| Overlap.AlwaysSound | packages/sdk/src/note-store.ts:150-434 | However backfill calls interleave with each other, with inserts, claims, spends, failing writes and crashes, the cursor's promise holds in memory and in every snapshot, and whatever came back with logs has been taken in or is in some call's hand |
| Overlap.CrashSafeAmid | packages/sdk/src/note-store.ts:196-434 | Whichever snapshot a crash leaves of any interleaving, all signatures at or older than the saved cursor have been through the fetch step, and of each one that was taken in the hydrated store holds the wallet's notes |
| Overlap.MissedIffInHand | packages/sdk/src/note-store.ts:252-312 | In every reachable state, everything at or older than the cursor that came back with logs has left its notes in the map if and only if that holds of the logs that calls have in hand |
| Overlap.LogsInHandCanBeLost | packages/sdk/src/note-store.ts:252-312 | Two overlapping calls and a crash after which a note whose logs one call had got is in neither memory nor file, and a backfill from the cursor does not come to it |
| Overlap.AloneMovesForward | packages/sdk/src/note-store.ts:307-312 | While the cursor is the one a call began with, the call can only move it forward |
| Overlap.FallsIff | packages/sdk/src/note-store.ts:307-312 | A call sets the cursor back exactly if its last page is short, it scanned anything, and its first page began at or below the cursor |
| Overlap.CursorCanFall | packages/sdk/src/note-store.ts:307-312 | Two overlapping calls over two transactions that set the cursor from the newer to the older |
| Alone.AloneIsBackfill | packages/sdk/src/note-store.ts:196-315 | A call whose steps nothing interrupts and no rejection ends scans the walk of a whole backfill, leaves exactly its scan, and moves the cursor as it does, with genesis as without |
| Alone.AloneRejected | packages/sdk/src/note-store.ts:196-232 | One that a rejection ends after some full pages has scanned exactly those, and the cursor stands where the call found it, or nowhere with genesis |
| Alone.ScansOne | packages/sdk/src/note-store.ts:252-293 | Its steps on one signature leave exactly the scan of that signature |
| NoteViews.CursorRoundTrip | packages/sdk/src/b402.ts:2191-2207 | Decoding an encoded cursor gives the leaf index |
| NoteViews.CursorText | packages/sdk/src/b402.ts:2191-2207 | A cursor is version 1 with the leaf index in decimal |
| NoteViews.OthersReadAsNone | packages/sdk/src/b402.ts:2191-2207 | No cursor, a malformed one, one of another version and one without a number read as -1 |
| NoteViews.FirstPoll | packages/sdk/src/b402.ts:2067-2092 | Such a poll delivers every spendable note of the filter, leaf 0 included |
| NoteViews.WatchIncoming | packages/sdk/src/b402.ts:2067-2092 | The notes above the cursor, ascending, and a cursor at the highest of them or where it was |
| NoteViews.MaxLeafIsHighest | packages/sdk/src/b402.ts:2067-2092 | The new cursor is at or above the old one and every note delivered, and is one of these |
| NoteViews.PollAll | packages/sdk/src/b402.ts:2067-2092 | Polls that pass on the cursor they got answer exactly what the two lemmas below call delivered |
| NoteViews.PollIsSorted | packages/sdk/src/b402.ts:2067-2092 | One poll delivers in leaf order and each note once |
| NoteViews.LaterPollsDeliverAbove | packages/sdk/src/b402.ts:2067-2092 | Over any sequence of polls of any stores, later polls deliver strictly above everything delivered before |
| NoteViews.DeliveredExactlyOnce | packages/sdk/src/b402.ts:2067-2092 | A note present and unspent at a poll is delivered there if and only if it is above the cursor; then no other poll delivers its leaf, otherwise no later one does |
| NoteViews.Aggregate | packages/sdk/src/b402.ts:2035-2044 | One entry per mint that occurs, with that mint's sum and number; the totals are those of the notes, which holdings lists one by one |
| NoteViews.EntryOf | packages/sdk/src/b402.ts:1984-1990 | A mint's entry is determined by the notes, and absent exactly without notes |
| NoteViews.FilterKeepsMint | packages/sdk/src/b402.ts:2034-2038 | Filtering first changes nothing about the mint and drops all others |
| NoteViews.FilteredBalanceIsEntry | packages/sdk/src/b402.ts:2029-2052 | A balance filtered by a mint is the unfiltered balance's entry for it |
| RateLimit.Authenticator.EnforceRateLimit | packages/relayer/src/auth.ts:61-72 | One request against its key's bucket; every other bucket stays; a refused request may still open a window |
| RateLimit.Authenticator.Serve | packages/relayer/src/auth.ts:61-72 | The decisions on a whole run of requests, by the specification that the lemmas are about |
| RateLimit.BucketIsOwn | packages/relayer/src/auth.ts:61-72 | A key's bucket is what it would be without any other key's requests |
| RateLimit.DecisionIsOwn | packages/relayer/src/auth.ts:61-72 | So is the decision on its next request |
| RateLimit.PassesIff | packages/relayer/src/auth.ts:61-72 | Amid any traffic a request passes exactly if fewer of its key's requests than its limit have passed since the request that opened its window; a request opens one if it is its key's first, or comes 60000 ms or more after the last that did |
| RateLimit.BucketsAre | packages/relayer/src/auth.ts:61-72 | Every key's bucket is the time of that opener and the number that passed since |
| RateLimit.WindowAlwaysHolds | packages/relayer/src/auth.ts:61-72 | The window invariant over every run: at most limit in the current window, the first at its start, at most limit - 1 in any shorter stretch before it |
| RateLimit.AnyMinute | packages/relayer/src/auth.ts:61-72 | With a clock that does not run backwards, at most 2 * limit - 1 requests pass in any half-open minute |
| RateLimit.AnyMinuteIsTight | packages/relayer/src/auth.ts:61-72 | The bound is attained for every limit |
| RateLimit.SlidingIff | packages/relayer/src/auth.ts:61-72 | Every run keeps every minute within the limit, as a sliding window would, if and only if the limit is at most one |
| RateLimit.AnyMinuteAmidTraffic | packages/relayer/src/auth.ts:61-72 | The bound holds amid any traffic of any keys |
| RateLimit.NoLimitNothing | packages/relayer/src/auth.ts:61-72 | A limit of zero or less lets nothing through |
| KaminoAdapter.Program.constructor | programs/b402-kamino-adapter/src/lib.rs:325-331 | The program starts valid in any state with well-formed obligations |
| KaminoAdapter.Program.Execute | programs/b402-kamino-adapter/src/lib.rs:332-590 | Fails exactly when CallError, a function of the arguments and the state at entry, says so, with that error, and then changes nothing; KaminoOutcome says when that is and what a success ends in. A deposit makes exactly the set-up instructions whose accounts are missing, anything else makes none |
| KaminoAdapter.HandleDeposit | programs/b402-kamino-adapter/src/lib.rs:1131-1422 | Fails exactly on one of its checks or on a CPI refused in the state it is made in; otherwise it ends in what the lender makes of the state after set-up and hop: of all accounts that are not the lender's only adapter_in moves, by exactly the amount, the owner's account is left as it was, the set-up accounts exist, and the reserve is in a slot of the owner's obligation |
| KaminoAdapter.HopFailsIff | programs/b402-kamino-adapter/src/lib.rs:1367-1384 | The hop fails exactly without the owner's account or with one of another mint |
| KaminoAdapter.HandleWithdraw | programs/b402-kamino-adapter/src/lib.rs:1442-1623 | Fails exactly on one of its checks, a refused CPI or an owner's account of another mint; otherwise it ends in what the lender makes of the state, with all that the owner's account then holds moved to adapter_out |
| KaminoAdapter.SetUp | programs/b402-kamino-adapter/src/lib.rs:1241-1315 | Fails exactly if the lender refuses a missing account in the state its predecessors left; otherwise ends in the ready state, having made exactly one set-up instruction for each missing account |
| KaminoAdapter.RunInitsOnce | programs/b402-kamino-adapter/src/lib.rs:1241-1315 | Over any run exactly the missing set-up instructions are made, no two of them for one account and none for one that was set up before |
| KaminoAdapter.ReadyStateIs | programs/b402-kamino-adapter/src/lib.rs:1241-1315 | The ready state has exactly what was missing in addition, the same tokens and the same existing obligations |
| KaminoAdapter.ObligationHasReserve | programs/b402-kamino-adapter/src/lib.rs:734-756 | True exactly if the obligation exists and one of its eight slots holds the reserve |
| KaminoAdapter.Refresh | programs/b402-kamino-adapter/src/lib.rs:1347-1365 | Passes exactly if the lender refreshes the reserve, the obligation exists and the forwarded reserves are its active slots |
| KaminoAdapter.Sweep | programs/b402-kamino-adapter/src/lib.rs:562-586 | Moves what adapter_out gained, and nothing else, to the out vault; fails exactly below the minimum, or when there is something to move between different mints |
| KaminoAdapter.WithdrawBalances | programs/b402-kamino-adapter/src/lib.rs:403-586 | After a withdrawal adapter_out is back at its entry balance and the owner's account empty, each exactly unless it is itself the out vault; the out vault gained what was delivered, at least the minimum |
| KaminoAdapter.TransferConserves | programs/b402-kamino-adapter/src/lib.rs:1372-1384 | A token transfer conserves every mint's total, also from an account to itself |
| KaminoAdapter.ForwardedIff | programs/b402-kamino-adapter/src/lib.rs:1347-1365 | The forwarded reserves are the active slots if and only if the obligation holds no other reserve, its own at most once, and the reserve is not the default key |
| KaminoAdapter.OneReserveKept | programs/b402-kamino-adapter/src/lib.rs:1347-1365 | A call that uses an obligation with its one reserve keeps it that way |
| KaminoAdapter.RunForwardsActive | programs/b402-kamino-adapter/src/lib.rs:1528-1545 | Over any run that uses each obligation with one reserve, every call forwards exactly the active slots |
| KaminoAdapter.RunConserves | programs/b402-kamino-adapter/src/lib.rs:332-590 | Over any run the total of every mint that the lender does not issue is unchanged |
| KaminoAdapter.OthersLeaveMineAlone | programs/b402-kamino-adapter/src/lib.rs:1899-1908 | While derived owners are distinct, calls with other hashes or mints leave an owner's obligation as it was |
| KaminoOutcome.ArgumentErrors | programs/b402-kamino-adapter/src/lib.rs:332-402 | Each error of the checks before the dispatch, and exactly when it is the answer |
| KaminoOutcome.AccountErrors | programs/b402-kamino-adapter/src/lib.rs:1131-1240 | The two checks of the handlers on accounts, and exactly when each is the answer |
| KaminoOutcome.RefreshesIff | programs/b402-kamino-adapter/src/lib.rs:1347-1365 | The refresh passes exactly if the lender refreshes the reserve, the obligation exists, the reserve is not the default key, no other reserve is in a slot and this one in at most one |
| KaminoOutcome.DepositOutcome | programs/b402-kamino-adapter/src/lib.rs:1241-1422 | With good arguments and accounts: the first of the set-up refusals, the refresh, the hop, the lender and the minimum that stops the deposit, each judged in the state that is written out for it, a reserve without a farm needing no third set-up |
| KaminoOutcome.DepositSucceedsIff | programs/b402-kamino-adapter/src/lib.rs:332-590 | A deposit succeeds if and only if none of these stops it, in terms of the call, the accounts and the lender alone |
| KaminoOutcome.DepositEnds | programs/b402-kamino-adapter/src/lib.rs:1386-1422 | A successful deposit ends in exactly the state that the lender makes of the one after set-up and hop |
| KaminoOutcome.WithdrawOutcome | programs/b402-kamino-adapter/src/lib.rs:1442-1623 | The same for a withdrawal: refresh, obligation, reserve, lender, mints and minimum, in the order of the program |
| KaminoOutcome.WithdrawSucceedsIff | programs/b402-kamino-adapter/src/lib.rs:332-590 | A withdrawal succeeds if and only if none of these stops it, in the same terms |
| KaminoOutcome.WithdrawEnds | programs/b402-kamino-adapter/src/lib.rs:1528-1623 | A successful withdrawal ends in exactly the state that the lender makes, with the owner's account emptied into the out vault |
| KaminoWitness.VaultLenderIsHonest | programs/b402-kamino-adapter/src/lib.rs:1316-1422 | A lender that moves deposits to its vault and uses the first slot meets everything that is assumed of the lender |
| KaminoWitness.RoundTrip | programs/b402-kamino-adapter/src/lib.rs:332-590 | On it, a deposit and a withdrawal of any positive amount succeed through Execute, set up each account once, and pay the amount out |
| NullifierShard.NullifierShard.Insert | programs/b402-pool/src/util.rs:70-91 | A full shard refuses everything; otherwise a nullifier is accepted exactly if it never was before; the list stays sorted and is exactly what was accepted |
| NullifierShard.NullifierShard.BinarySearch | programs/b402-pool/src/util.rs:78-81 | Finds a nullifier exactly if it is there, and otherwise where it belongs |
| NullifierShard.NullifierShard.Shift | programs/b402-pool/src/util.rs:84-87 | Shifting from the top down moves every entry from the position on up by one |
| NullifierShard.NullifierShard.OrderDoesNotMatter | programs/b402-pool/src/util.rs:67-91 | Shards that accepted the same nullifiers in any order hold the same list |

## Left out

- Poseidon, Groth16, key derivation and the note cipher are uninterpreted functions; field elements of the trees are any natural numbers, so an injective hash exists and the lemmas that assume one are not empty.
- Program-derived addresses are an uninterpreted function, distinct where a lemma says so.
- ClientMerkle.ClientMerkleTree.Prove: takes a nonnegative index; the source does not reject a negative one.
- The 64-bit width of leaf counts, which the trees never reach at depth 26, and of token amounts, whose overflow makes the token program fail.
- NoteStore.NoteStore.Backfill: runs to its end before the next call; Overlap lets calls interleave, on values. The pairs in which fetches are started are not modelled: a call takes one transaction's logs in before it fetches the next.
- NoteStore.Rpc.GetSignatures: does not model the node's own cap on the limit, or a before signature that it does not know.
- The last scanned slot, the snapshot's JSON, and the order of the spent list in the file.
- TextCodec.FromDecimal: text other than decimal digits is an error; BigInt also accepts blanks, signs and prefixes.
- NoteViews.DecodeCursor: the base64 JSON around the two fields is one of three shapes.
- Labels, short note ids and time stamps in what `balance`, `holdings` and `watchIncoming` answer.
- NoteStore.NoteStore.Start: promises soundness over a file that this program wrote; Hydrate takes any file, and and HydrateV1, HydrateDamaged and ReadNotesIs say what becomes of others.
- KaminoAdapter.Program.Execute: leaves out the call-depth gate of the `cpi-only` feature, the accounts that are only passed on, byte offsets inside the obligation account, and existing accounts of the wrong kind.
- The shared-obligation build, Borrow and Repay beyond the checks before they are refused, and garbage collection of obligations, which would repeat an easier form of the sweep.
- `authenticate` and `matchKey` of the relayer, whose search loop is easy.
- NullifierShard.NullifierShard.BinarySearch: is the model's own; the standard library's is not part of this model.
- The pool's instruction handlers, the other adapters, the indexer, transaction assembly, the command line tools and all network code.
