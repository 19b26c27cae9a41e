/** packages/sdk/src/note-encryption.ts: the 73-byte note plaintext and the nonce of a leaf index. */
module NoteCodec {
  import opened FieldCodec
  import opened Numerals
  import opened Wrappers

  const U64: nat := 0x1_0000_0000_0000_0000

  datatype Note = Note(value: nat, random: nat, tokenMint: nat, spendingPub: nat)

  datatype NoteError = BadLength | FieldOutOfRange | NonCanonicalField | UnknownVersion | IndexOutOfRange

  lemma U64IsEightBytes()
    ensures Pow(256, 8) == U64
  {
    assert Pow(256, 4) == 0x1_0000_0000;
  }

  /** setBigUint64 keeps the low 64 bits; a field out of range makes frToLe throw. */
  method SerializeNote(n: Note) returns (r: Result<Bytes, NoteError>)
    ensures r == Serialized(n)
    ensures if n.random < FR_MODULUS && n.tokenMint < FR_MODULUS then r.Success? else r == Failure(FieldOutOfRange)
    ensures r.Success? ==>
              var b := r.value;
              && |b| == 73 && LeValue(b[..8]) == n.value % 0x1_0000_0000_0000_0000
              && LeValue(b[8..40]) == n.random && LeValue(b[40..72]) == n.tokenMint && b[72] == 1
  {
    if n.random < FR_MODULUS && n.tokenMint < FR_MODULUS {
      SerializedMeans(n);
    }
    var out := new Byte[73](_ => 0);
    WriteLe(out, n.value, 8);
    ghost var head := out[..8];
    var random := FrToLe(n.random);
    if random.Failure? {
      return Failure(FieldOutOfRange);
    }
    forall i | 0 <= i < 32 {
      out[8 + i] := random.value[i];
    }
    assert out[..8] == head && out[8..40] == random.value;
    var mint := FrToLe(n.tokenMint);
    if mint.Failure? {
      return Failure(FieldOutOfRange);
    }
    forall i | 0 <= i < 32 {
      out[40 + i] := mint.value[i];
    }
    assert out[..8] == head && out[8..40] == random.value && out[40..72] == mint.value;
    out[72] := 1;
    assert out[..8] == head && out[8..40] == random.value && out[40..72] == mint.value;
    LayoutOf(out[..]);
    return Success(out[..]);
  }

  /** Value, random, mint and version byte, in this order; the spending key is not part of it. */
  function Serialized(n: Note): Result<Bytes, NoteError> {
    if n.random < FR_MODULUS && n.tokenMint < FR_MODULUS then
      Success(Layout(LeBytes(n.value, 8), LeBytes(n.random, 32), LeBytes(n.tokenMint, 32)))
    else
      Failure(FieldOutOfRange)
  }

  function Layout(value: Bytes, random: Bytes, tokenMint: Bytes): Bytes {
    value + random + tokenMint + [1]
  }

  method DeserializeNote(plaintext: Bytes, spendingPub: nat) returns (r: Result<Note, NoteError>)
    ensures r == Deserialized(plaintext, spendingPub)
    ensures |plaintext| != 73 <==> r == Failure(BadLength)
    ensures |plaintext| == 73 ==>
              var random, mint := LeValue(plaintext[8..40]), LeValue(plaintext[40..72]);
              r == if random >= FR_MODULUS || mint >= FR_MODULUS then Failure(NonCanonicalField)
                   else if plaintext[72] != 1 then Failure(UnknownVersion)
                   else Success(Note(LeValue(plaintext[..8]), random, mint, spendingPub))
  {
    if |plaintext| != 73 {
      return Failure(BadLength);
    }
    var value := LeToBig(plaintext[..8]);
    var random := LeToFr(plaintext[8..40]);
    if random.Failure? {
      return Failure(NonCanonicalField);
    }
    var tokenMint := LeToFr(plaintext[40..72]);
    if tokenMint.Failure? {
      return Failure(NonCanonicalField);
    }
    if plaintext[72] != 1 {
      return Failure(UnknownVersion);
    }
    return Success(Note(value, random.value, tokenMint.value, spendingPub));
  }

  function Deserialized(b: Bytes, spendingPub: nat): Result<Note, NoteError> {
    if |b| != 73 then
      Failure(BadLength)
    else if DecodeFr(b[8..40]).Failure? || DecodeFr(b[40..72]).Failure? then
      Failure(NonCanonicalField)
    else if b[72] != 1 then
      Failure(UnknownVersion)
    else
      Success(Note(LeValue(b[..8]), DecodeFr(b[8..40]).value, DecodeFr(b[40..72]).value, spendingPub))
  }

  lemma SerializedMeans(n: Note)
    requires Serialized(n).Success?
    ensures var b := Serialized(n).value;
            && |b| == 73 && LeValue(b[..8]) == n.value % 0x1_0000_0000_0000_0000
            && LeValue(b[8..40]) == n.random && LeValue(b[40..72]) == n.tokenMint && b[72] == 1
  {
    DeserializeSerialize(n);
    assert DecodeFr(Serialized(n).value[8..40]).value == n.random;
  }

  /** Reading back what was written gives the note, with its value cut to 64 bits. */
  lemma DeserializeSerialize(n: Note)
    requires Serialized(n).Success?
    ensures Deserialized(Serialized(n).value, n.spendingPub) == Success(n.(value := n.value % U64))
  {
    var b := Serialized(n).value;
    U64IsEightBytes();
    LeBytesWrap(n.value, 8);
    DecodeEncode(n.random);
    DecodeEncode(n.tokenMint);
    assert b[..8] == LeBytes(n.value, 8);
    assert b[8..40] == LeBytes(n.random, 32);
    assert b[40..72] == LeBytes(n.tokenMint, 32);
  }

  lemma EightByteValue(b: Bytes)
    requires |b| == 8
    ensures LeBytes(LeValue(b), 8) == b
  {
    U64IsEightBytes();
    EvalBound(b, 256);
    LeBytesWrap(LeValue(b), 8);
    SmallRemainder(LeValue(b), U64);
    SameLengthSameValue(b, LeBytes(LeValue(b), 8), 256);
  }

  lemma LayoutOf(b: Bytes)
    requires |b| == 73 && b[72] == 1
    ensures b == Layout(b[..8], b[8..40], b[40..72])
  {
  }

  lemma FieldRoundTrip(b: Bytes)
    requires DecodeFr(b).Success?
    ensures DecodeFr(b).value < FR_MODULUS && LeBytes(DecodeFr(b).value, 32) == b
  {
    EncodeDecode(b);
  }

  /** A plaintext that is accepted is the one that writing the note gives. */
  lemma SerializeDeserialize(b: Bytes, spendingPub: nat)
    requires Deserialized(b, spendingPub).Success?
    ensures Serialized(Deserialized(b, spendingPub).value) == Success(b)
  {
    FieldRoundTrip(b[8..40]);
    FieldRoundTrip(b[40..72]);
    EightByteValue(b[..8]);
    LayoutOf(b);
  }

  /** nonceForIndex */
  function NonceForIndex(leafIndex: int): Result<Bytes, NoteError> {
    if leafIndex < 0 || leafIndex >= U64 then Failure(IndexOutOfRange)
    else Success(LeBytes(leafIndex, 8) + [0, 0, 0, 0])
  }

  /** The index in eight bytes, low byte first, and four zeros. */
  lemma NonceIs(leafIndex: int)
    ensures NonceForIndex(leafIndex).Success? <==> 0 <= leafIndex < 0x1_0000_0000_0000_0000
    ensures NonceForIndex(leafIndex).Failure? ==> NonceForIndex(leafIndex).error == IndexOutOfRange
    ensures NonceForIndex(leafIndex).Success? ==>
              var nonce := NonceForIndex(leafIndex).value;
              |nonce| == 12 && LeValue(nonce[..8]) == leafIndex && nonce[8..] == [0, 0, 0, 0]
  {
    if 0 <= leafIndex < U64 {
      U64IsEightBytes();
      LeBytesWrap(leafIndex, 8);
      SmallRemainder(leafIndex, U64);
      assert NonceForIndex(leafIndex).value[..8] == LeBytes(leafIndex, 8);
    }
  }

  /** No two leaf indices share a nonce. */
  lemma NoncesDiffer(i: int, j: int)
    requires NonceForIndex(i).Success? && NonceForIndex(i) == NonceForIndex(j)
    ensures i == j
  {
    U64IsEightBytes();
    LeBytesWrap(i, 8);
    LeBytesWrap(j, 8);
    SmallRemainder(i, U64);
    SmallRemainder(j, U64);
    assert LeBytes(i, 8) == NonceForIndex(i).value[..8];
    assert LeBytes(j, 8) == NonceForIndex(j).value[..8];
  }
}
