/**
 The three encoders of domain tags: tag_fr_le of the pool program, Fr::from_tag and tagToFr.
 */
module DomainTags {
  import opened Bits
  import opened FieldCodec
  import opened Numerals
  import opened Wrappers

  /** What charCodeAt answers. Up to 127 it is also the one byte of the character's UTF-8 encoding. */
  type CodeUnit = c: nat | c < 65536

  /** What a tag stands for: its bytes as a big-endian integer. */
  function TagValue(tag: seq<nat>): nat {
    BeEval(tag, 256)
  }

  /** programs/b402-pool: right-aligns the tag in 32 bytes and reverses them; a longer tag panics. */
  method TagFrLe(tag: Bytes) returns (r: Option<Bytes>)
    ensures r == if |tag| <= 31 then Some(Reverse(tag) + seq(32 - |tag|, _ => 0)) else None
  {
    if |tag| > 31 {
      return None;
    }
    var be := new Byte[32](_ => 0);
    var offset := 32 - |tag|;
    var i := 0;
    while i < |tag|
      invariant 0 <= i <= |tag|
      invariant forall k :: 0 <= k < 32 ==> be[k] == if offset <= k < offset + i then tag[k - offset] else 0
    {
      be[offset + i] := tag[i];
      i := i + 1;
    }
    var le := new Byte[32](_ => 0);
    var j := 0;
    while j < 32
      invariant 0 <= j <= 32
      invariant forall k :: 0 <= k < j ==> le[k] == be[31 - k]
      modifies le
    {
      le[j] := be[31 - j];
      j := j + 1;
    }
    assert forall k :: 0 <= k < 32 ==> le[k] == if k < |tag| then tag[|tag| - 1 - k] else 0;
    assert le[..] == Reverse(tag) + seq(32 - |tag|, _ => 0);
    return Some(le[..]);
  }

  /** packages/crypto: the same bytes, read back as a field element. */
  method FromTag(tag: Bytes) returns (r: Option<nat>)
    ensures r == if |tag| <= 31 then Some(TagValue(tag)) else None
  {
    if |tag| > 31 {
      return None;
    }
    var le := TagFrLe(tag);
    TagBelowModulus(tag);
    EvalPadded(Reverse(tag), 32 - |tag|, 256);
    return Some(FromLeBytesReduced(le.value));
  }

  /** Bitwise or */
  function Or(a: nat, b: nat): nat {
    if a == 0 then b
    else if b == 0 then a
    else Or(a / 2, b / 2) * 2 + if a % 2 == 1 || b % 2 == 1 then 1 else 0
  }

  /** (acc << 8) | code: what a code unit holds above its low byte runs into the byte before it. */
  function ShiftIn(acc: nat, code: CodeUnit): nat {
    Or(acc, code / 256) * 256 + code % 256
  }

  /** Bit by bit: set where either is. */
  lemma {:induction false} OrBits(a: nat, b: nat, k: nat)
    ensures Bit(Or(a, b), k) == 1 <==> Bit(a, k) == 1 || Bit(b, k) == 1
    decreases a + b
  {
    if a == 0 || b == 0 {
      ShrIsZero(0, k);
    } else if k > 0 {
      OrBits(a / 2, b / 2, k - 1);
      ShrFromBelow(Or(a, b), k - 1);
      ShrFromBelow(a, k - 1);
      ShrFromBelow(b, k - 1);
    }
  }

  /** Eight places up, or-ed with the code unit. */
  lemma ShiftInBits(acc: nat, code: CodeUnit, k: nat)
    ensures Bit(ShiftIn(acc, code), k) == 1 <==> (k >= 8 && Bit(acc, k - 8) == 1) || Bit(code, k) == 1
  {
    if k >= 8 {
      OrBits(acc, code / 256, k - 8);
      ShrBy8(ShiftIn(acc, code), k - 8);
      ShrBy8(code, k - 8);
    } else {
      LowBits(Or(acc, code / 256), code % 256, k);
      LowBits(code / 256, code % 256, k);
      assert code / 256 * 256 + code % 256 == code;
    }
  }

  lemma {:induction false} ShrBy8(n: nat, k: nat)
    ensures Shr(n, k + 8) == Shr(n / 256, k)
  {
    if k == 0 {
      assert Shr(n, 1) == n / 2;
      assert Shr(n, 2) == n / 2 / 2 == n / 4;
      assert Shr(n, 3) == n / 4 / 2 == n / 8;
      assert Shr(n, 4) == n / 8 / 2 == n / 16;
      assert Shr(n, 5) == n / 16 / 2 == n / 32;
      assert Shr(n, 6) == n / 32 / 2 == n / 64;
      assert Shr(n, 7) == n / 64 / 2 == n / 128;
    } else {
      ShrBy8(n, k - 1);
    }
  }

  lemma Twice(high: nat, p: nat)
    ensures high * (2 * p) == 2 * (high * p)
  {
  }

  lemma PowersOfTwo()
    ensures Pow2(8) == 256
  {
    assert Pow2(2) == 4;
    assert Pow2(4) == 16;
    assert Pow2(6) == 64;
  }

  lemma {:induction false} LowShift(high: nat, low: Byte, k: nat)
    requires k <= 8
    ensures Shr(high * 256 + low, k) == high * Pow2(8 - k) + Shr(low, k)
  {
    if k == 0 {
      PowersOfTwo();
    } else {
      LowShift(high, low, k - 1);
      Twice(high, Pow2(8 - k));
    }
  }

  /** The low eight bits come from the low byte. */
  lemma LowBits(high: nat, low: Byte, k: nat)
    requires k < 8
    ensures Bit(high * 256 + low, k) == Bit(low, k)
  {
    LowShift(high, low, k);
    Twice(high, Pow2(7 - k));
    SameParity(high * Pow2(7 - k), Shr(low, k));
  }

  lemma SameParity(q: nat, x: nat)
    ensures (2 * q + x) % 2 == x % 2
  {
  }

  function CodeValue(tag: seq<CodeUnit>): nat {
    if tag == [] then 0 else ShiftIn(CodeValue(tag[..|tag| - 1]), tag[|tag| - 1])
  }

  /** On code units that are bytes the shifts spell the bytes' integer. */
  lemma {:induction false} CodeValueOfBytes(tag: Bytes)
    ensures CodeValue(tag) == TagValue(tag)
  {
    if tag != [] {
      var front, last := tag[..|tag| - 1], tag[|tag| - 1];
      CodeValueOfBytes(front);
      BeEvalSnoc(front, last, 256);
      assert tag == front + [last] && last / 256 == 0;
      assert Or(TagValue(front), 0) == TagValue(front);
    }
  }

  /** packages/shared: shifts in the code units, and reduces. */
  method TagToFr(tag: seq<CodeUnit>) returns (r: Option<nat>)
    ensures r == if |tag| <= 31 then Some(CodeValue(tag) % FR_MODULUS) else None
    ensures (forall i :: 0 <= i < |tag| ==> tag[i] < 256) ==>
              r == if |tag| <= 31 then Some(TagValue(tag)) else None
  {
    if |tag| > 31 {
      return None;
    }
    var acc := 0;
    for i := 0 to |tag|
      invariant acc == CodeValue(tag[..i])
    {
      assert tag[..i + 1][..i] == tag[..i];
      acc := ShiftIn(acc, tag[i]);
    }
    assert tag[..|tag|] == tag;
    if forall i :: 0 <= i < |tag| ==> tag[i] < 256 {
      CodeValueOfBytes(tag);
      TagBelowModulus(tag);
    }
    return Some(acc % FR_MODULUS);
  }

  /** No tag ever reaches the modulus, so no encoder reduces. */
  lemma TagBelowModulus(tag: Bytes)
    requires |tag| <= 31
    ensures TagValue(tag) < FR_MODULUS
    ensures TagValue(tag) % FR_MODULUS == TagValue(tag)
  {
    var padded := Reverse(tag) + seq(32 - |tag|, _ => 0);
    EvalPadded(Reverse(tag), 32 - |tag|, 256);
    ModulusBytes();
    assert padded[31] == 0 && MODULUS_LE[31] == 0x30;
    assert padded[32..] == MODULUS_LE[32..];
    CompareAt(padded, MODULUS_LE, 31, 256);
    SmallRemainder(TagValue(tag), FR_MODULUS);
  }

  /** The pool's constant is the canonical encoding of the field element the other two compute. */
  lemma EncodersAgree(tag: Bytes)
    requires |tag| <= 31
    ensures EncodeFr(TagValue(tag)) == Success(Reverse(tag) + seq(32 - |tag|, _ => 0))
  {
    var bytes: Bytes := Reverse(tag) + seq(32 - |tag|, _ => 0);
    TagBelowModulus(tag);
    EvalPadded(Reverse(tag), 32 - |tag|, 256);
    EncodeDecode(bytes);
  }

  /** Two tags share an encoding exactly when they differ in leading NUL bytes only. */
  lemma TagsCollideIff(a: Bytes, b: Bytes)
    requires |a| <= 31 && |b| <= 31
    ensures EncodeFr(TagValue(a)) == EncodeFr(TagValue(b)) <==> StripZeros(a) == StripZeros(b)
    ensures (a == [] || a[0] != 0) && (b == [] || b[0] != 0) && EncodeFr(TagValue(a)) == EncodeFr(TagValue(b)) ==> a == b
  {
    TagBelowModulus(a);
    TagBelowModulus(b);
    DecodeEncode(TagValue(a));
    DecodeEncode(TagValue(b));
    SameValueIff(a, b, 256);
  }
}
