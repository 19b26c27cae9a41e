/** packages/relayer/src/submit.ts: reading the fee payer's signature out of a serialised transaction. */
module Signatures {
  import opened Base58
  import opened FieldCodec
  import opened Numerals
  import opened Wrappers

  datatype SignatureError = CountTooLong | NoSignatures

  const SIGNATURE_BYTES: nat := 64

  /** A compact length: seven bits to a byte, least significant first, the high bit marking that more follow. */
  function Compact(n: nat): (c: Bytes)
    ensures c != []
  {
    if n < 128 then [n] else [n % 128 + 128] + Compact(n / 128)
  }

  /** Reading past the end of an array gives undefined, which the bit operations take for zero. */
  function ByteAt(wire: Bytes, off: nat): Byte {
    if off < |wire| then wire[off] else 0
  }

  /** The number that at most groups bytes spell from off on, and where it ends. */
  function Count(wire: Bytes, off: nat, groups: nat): Option<(nat, nat)>
    decreases groups
  {
    if groups == 0 then None
    else
      var b := ByteAt(wire, off);
      if b < 128 then Some((b, off + 1))
      else
        match Count(wire, off + 1, groups - 1)
        case None => None
        case Some((high, end)) => Some((b - 128 + 128 * high, end))
  }

  /** Array.slice, which stops at the end of the array. */
  function Slice(wire: Bytes, from: nat, to: nat): Bytes {
    if from >= |wire| || from >= to then [] else wire[from..if to < |wire| then to else |wire|]
  }

  /** What base58Encode makes of some bytes, by its own contract. */
  function Base58Text(bytes: Bytes): string {
    Encode(bytes) + if StripZeros(bytes) == [] then "1" else ""
  }

  /** The text of the 64 bytes behind the count, as many of them as there are. */
  function RecoveredText(wire: Bytes): Result<string, SignatureError> {
    TextBehind(wire, Count(wire, 0, 4))
  }

  function TextBehind(wire: Bytes, counted: Option<(nat, nat)>): Result<string, SignatureError> {
    match counted
    case None => Failure(CountTooLong)
    case Some((count, end)) =>
      if count == 0 then Failure(NoSignatures)
      else Success(Base58Text(Slice(wire, end, end + SIGNATURE_BYTES)))
  }

  method RecoverFirstSignature(wire: Bytes) returns (r: Result<string, SignatureError>)
    ensures r == RecoveredText(wire)
  {
    var counted := ReadCount(wire);
    if counted.None? {
      return Failure(CountTooLong);
    }
    var (count, off) := counted.value;
    if count < 1 {
      return Failure(NoSignatures);
    }
    var text := Base58Encode(Slice(wire, off, off + SIGNATURE_BYTES));
    return Success(text);
  }

  /** The loop over the bytes of the count: at most four of them. */
  method ReadCount(wire: Bytes) returns (r: Option<(nat, nat)>)
    ensures r == Count(wire, 0, 4)
  {
    var off: nat, count: nat, shift: nat, scale: nat := 0, 0, 0, 1;
    ghost var whole := Count(wire, 0, 4);
    while true
      invariant shift == 7 * off <= 21
      invariant whole == Scaled(count, scale, Count(wire, off, 4 - off))
      decreases 21 - shift
    {
      var b := ByteAt(wire, off);
      count := AddGroup(count, scale, b, wire, off, 4 - off);
      off := off + 1;
      if b < 128 {
        return Some((count, off));
      }
      shift, scale := shift + 7, scale * 128;
      if shift > 21 {
        return None;
      }
    }
  }

  /** count |= (byte & 0x7f) << shift */
  method AddGroup(count: nat, scale: nat, b: Byte, ghost wire: Bytes, ghost off: nat, ghost groups: nat) returns (sum: nat)
    requires groups > 0 && b == ByteAt(wire, off)
    ensures sum == count + scale * (b % 128)
    ensures b < 128 ==> Scaled(count, scale, Count(wire, off, groups)) == Some((sum, off + 1))
    ensures b >= 128 ==> Scaled(count, scale, Count(wire, off, groups)) == Scaled(sum, scale * 128, Count(wire, off + 1, groups - 1))
  {
    var part := scale * (b % 128);
    ScaledStep(count, scale, b % 128, part, wire, off, groups);
    sum := count + part;
  }

  /** The groups read so far, and what the rest spells. */
  function Scaled(count: nat, scale: nat, rest: Option<(nat, nat)>): Option<(nat, nat)> {
    match rest
    case None => None
    case Some((high, end)) => Some((count + scale * high, end))
  }

  lemma ScaledStep(count: nat, scale: nat, low: nat, part: nat, wire: Bytes, off: nat, groups: nat)
    requires groups > 0 && low == ByteAt(wire, off) % 128 && part == scale * low
    ensures ByteAt(wire, off) < 128 ==> Scaled(count, scale, Count(wire, off, groups)) == Some((count + part, off + 1))
    ensures ByteAt(wire, off) >= 128 ==>
              Scaled(count, scale, Count(wire, off, groups)) == Scaled(count + part, scale * 128, Count(wire, off + 1, groups - 1))
  {
    if ByteAt(wire, off) >= 128 && Count(wire, off + 1, groups - 1).Some? {
      Distribute(scale, low, Count(wire, off + 1, groups - 1).value.0);
    }
  }

  /** Seven bits of the byte at a place; 0 past the end of the wire. */
  function Low(wire: Bytes, i: nat): nat {
    (if i < |wire| then wire[i] else 0) % 128
  }

  predicate GoesOn(wire: Bytes, i: nat) {
    i < |wire| && wire[i] >= 128
  }

  /** What the count is on every wire: the groups up to the first byte without the high bit, low group first. */
  lemma CountIs(wire: Bytes)
    ensures var a, b, c, d := Low(wire, 0), Low(wire, 1), Low(wire, 2), Low(wire, 3);
            Count(wire, 0, 4)
            == if !GoesOn(wire, 0) then Some((a, 1))
               else if !GoesOn(wire, 1) then Some((a + 128 * b, 2))
               else if !GoesOn(wire, 2) then Some((a + 128 * b + 16384 * c, 3))
               else if !GoesOn(wire, 3) then Some((a + 128 * b + 16384 * c + 2097152 * d, 4))
               else None
  {
    CountStep(wire, 3, 1);
    CountStep(wire, 2, 2);
    CountStep(wire, 1, 3);
    CountStep(wire, 0, 4);
  }

  lemma CountStep(wire: Bytes, off: nat, groups: nat)
    requires groups > 0
    ensures Count(wire, off, groups)
            == if !GoesOn(wire, off) then Some((Low(wire, off), off + 1))
               else Scaled(Low(wire, off), 128, Count(wire, off + 1, groups - 1))
  {
  }

  /** The 64 bytes behind a place, as many of them as there are. */
  lemma SliceIs(wire: Bytes, end: nat)
    ensures Slice(wire, end, end + SIGNATURE_BYTES)
            == if end + 64 <= |wire| then wire[end..end + 64] else if end <= |wire| then wire[end..] else []
  {
  }

  lemma TextBehindIs(wire: Bytes, counted: Option<(nat, nat)>, count: nat, end: nat, signature: Bytes)
    requires signature == if end + 64 <= |wire| then wire[end..end + 64] else if end <= |wire| then wire[end..] else []
    ensures counted == None ==> TextBehind(wire, counted) == Failure(CountTooLong)
    ensures counted == Some((0, end)) ==> TextBehind(wire, counted) == Failure(NoSignatures)
    ensures counted == Some((count, end)) && count > 0 ==> TextBehind(wire, counted) == Success(Base58Text(signature))
  {
    SliceIs(wire, end);
  }

  /** On every wire: which of the two errors, or the text of the up to 64 bytes behind the count. */
  lemma RecoveredIs(wire: Bytes, count: nat, end: nat, signature: Bytes)
    requires signature == if end + 64 <= |wire| then wire[end..end + 64] else if end <= |wire| then wire[end..] else []
    ensures Count(wire, 0, 4) == None ==> RecoveredText(wire) == Failure(CountTooLong)
    ensures Count(wire, 0, 4) == Some((0, end)) ==> RecoveredText(wire) == Failure(NoSignatures)
    ensures Count(wire, 0, 4) == Some((count, end)) && count > 0 ==> RecoveredText(wire) == Success(Base58Text(signature))
  {
    TextBehindIs(wire, Count(wire, 0, 4), count, end, signature);
  }

  lemma Distribute(scale: nat, low: nat, high: nat)
    ensures scale * (low + 128 * high) == scale * low + scale * 128 * high
  {
  }

  lemma {:induction false} Pow128Positive(k: nat)
    ensures Pow(128, k) > 0
  {
    if k > 0 {
      Pow128Positive(k - 1);
    }
  }

  /** A compact length is read back exactly when it fits into the groups that are read. */
  lemma {:induction false} CountOfCompact(before: Bytes, n: nat, rest: Bytes, groups: nat)
    ensures Count(before + Compact(n) + rest, |before|, groups)
            == if groups > 0 && n < Pow(128, groups) then Some((n, |before| + |Compact(n)|)) else None
    decreases groups
  {
    var wire := before + Compact(n) + rest;
    if groups > 0 {
      Pow128Positive(groups - 1);
      assert wire[|before|] == Compact(n)[0];
      if n >= 128 {
        var low: Byte := n % 128 + 128;
        assert wire == (before + [low]) + Compact(n / 128) + rest;
        CountOfCompact(before + [low], n / 128, rest, groups - 1);
      }
    }
  }

  /** Zero bytes get one character too many, which decodes to one byte too many. */
  lemma ExtraOneIsExtraZero(bytes: Bytes)
    requires StripZeros(bytes) == []
    ensures Encode(bytes) + "1" == Encode(bytes + [0])
  {
    StrippedIsDigits(bytes, 256);
    BeEvalSnoc(bytes, 0, 256);
    assert forall i :: 0 <= i < |bytes| ==> bytes[i] == 0;
    assert LeadingZeros(bytes + [0]) == |bytes| + 1 by {
      ZerosThenNonzero(|bytes| + 1, []);
      assert seq(|bytes| + 1, _ => 0) + [] == bytes + [0];
    }
  }

  /** base58Encode is undone by decoding except on zero bytes. */
  lemma DecodesUnlessZero(bytes: Bytes)
    ensures Decode(Base58Text(bytes)) == Some(bytes) <==> StripZeros(bytes) != []
  {
    if StripZeros(bytes) == [] {
      ExtraOneIsExtraZero(bytes);
      Base58.DecodeEncode(bytes + [0]);
    } else {
      Base58.DecodeEncode(bytes);
      assert Encode(bytes) + "" == Encode(bytes);
    }
  }

  lemma SliceOfParts(a: Bytes, b: Bytes, c: Bytes)
    ensures Slice(a + b + c, |a|, |a| + |b|) == b
  {
  }

  lemma CountOfWire(n: nat, signature: Bytes, rest: Bytes)
    requires 0 < n < Pow(128, 4)
    ensures Count(Compact(n) + signature + rest, 0, 4) == Some((n, |Compact(n)|))
  {
    CountOfCompact([], n, signature + rest, 4);
    assert [] + Compact(n) + (signature + rest) == Compact(n) + signature + rest;
  }

  /**
   The signature of a well-formed transaction decodes to the bytes behind the count, for every count the
   loop reads, unless those bytes are all zero.
   */
  lemma RecoveredDecodes(n: nat, signature: Bytes, rest: Bytes)
    requires |signature| == 64 && 0 < n < Pow(128, 4)
    ensures var wire := Compact(n) + signature + rest;
            var counted := Count(wire, 0, 4);
            && counted == Some((n, |Compact(n)|))
            && Slice(wire, counted.value.1, counted.value.1 + SIGNATURE_BYTES) == signature
            && RecoveredText(wire) == Success(Base58Text(signature))
            && (Decode(Base58Text(signature)) == Some(signature) <==> StripZeros(signature) != [])
  {
    CountOfWire(n, signature, rest);
    SliceOfParts(Compact(n), signature, rest);
    DecodesUnlessZero(signature);
  }
}
