/**
 The 32-byte little-endian encoding of field elements: packages/crypto/src/fr.rs and
 packages/shared/src/encoding.ts.
 */
module FieldCodec {
  import opened Numerals
  import opened Wrappers

  type Byte = b: nat | b < 256
  type Bytes = seq<Byte>

  /** The order of the BN254 scalar field. */
  const FR_MODULUS: nat := 21888242871839275222246405745257275088548364400416034343698204186575808495617

  /** The same number as the byte string that fr.rs compares against, eight bytes at a time. */
  const MODULUS_LE: Bytes := M0 + (M1 + (M2 + M3))
  const M0: Bytes := [0x01, 0x00, 0x00, 0xf0, 0x93, 0xf5, 0xe1, 0x43]
  const M1: Bytes := [0x91, 0x70, 0xb9, 0x79, 0x48, 0xe8, 0x33, 0x28]
  const M2: Bytes := [0x5d, 0x58, 0x81, 0x81, 0xb6, 0x45, 0x50, 0xb8]
  const M3: Bytes := [0x29, 0xa0, 0x31, 0xe1, 0x72, 0x4e, 0x64, 0x30]

  datatype FrError = NonCanonical | InvalidLength | OutOfRange

  /** The integer that a little-endian byte string denotes. */
  function LeValue(b: seq<nat>): nat {
    Eval(b, 256)
  }

  lemma ModulusBytes()
    ensures |MODULUS_LE| == 32
    ensures LeValue(MODULUS_LE) == FR_MODULUS
  {
    EightBytes(M0, M1 + (M2 + M3));
    EightBytes(M1, M2 + M3);
    ModulusTopHalf();
  }

  lemma ModulusTopHalf()
    ensures Eval(M2 + M3, 256) == 0x30644e72e131a029b85045b68181585d
  {
    EightBytes(M2, M3);
    EightBytes(M3, []);
    assert M3 + [] == M3;
  }

  /** Eight Horner steps at once. */
  lemma EightBytes(m: seq<nat>, rest: seq<nat>)
    requires |m| == 8
    ensures Eval(m + rest, 256)
            == m[0] + 0x100 * m[1] + 0x10000 * m[2] + 0x1000000 * m[3]
               + 0x100000000 * m[4] + 0x10000000000 * m[5] + 0x1000000000000 * m[6]
               + 0x100000000000000 * m[7] + 0x10000000000000000 * Eval(rest, 256)
  {
    var all := m + rest;
    Horner(all, 0);
    Horner(all, 1);
    Horner(all, 2);
    Horner(all, 3);
    Horner(all, 4);
    Horner(all, 5);
    Horner(all, 6);
    Horner(all, 7);
    assert all[0..] == all && all[8..] == rest;
  }

  lemma Horner(m: seq<nat>, i: nat)
    requires i < |m|
    ensures Eval(m[i..], 256) == m[i] + 256 * Eval(m[i + 1..], 256)
  {
    assert m[i..][1..] == m[i + 1..];
  }

  /** leToBig, leToBigint: Horner from the top byte down, with no range check. */
  method LeToBig(b: Bytes) returns (v: nat)
    ensures v == LeValue(b)
  {
    v := 0;
    var i := |b|;
    assert b[|b|..] == [];
    while i > 0
      invariant 0 <= i <= |b|
      invariant v == LeValue(b[i..])
    {
      Horner(b, i - 1);
      i := i - 1;
      v := v * 256 + b[i];
    }
    assert b[0..] == b;
  }

  /** leToFr: the canonical decoder of the TypeScript side. */
  method LeToFr(b: Bytes) returns (r: Result<nat, FrError>)
    ensures r == DecodeFr(b)
    ensures r == if |b| != 32 then Failure(InvalidLength)
                 else if LeValue(b) >= FR_MODULUS then Failure(NonCanonical)
                 else Success(LeValue(b))
  {
    if |b| != 32 {
      return Failure(InvalidLength);
    }
    var v := LeToBig(b);
    if v >= FR_MODULUS {
      return Failure(NonCanonical);
    }
    return Success(v);
  }

  /** What canonical decoding means: exactly 32 bytes, denoting an integer below the modulus. */
  function DecodeFr(b: Bytes): Result<nat, FrError> {
    if |b| != 32 then Failure(InvalidLength)
    else if LeValue(b) >= FR_MODULUS then Failure(NonCanonical)
    else Success(LeValue(b))
  }

  /**
   The comparison inside Fr::from_le_bytes: walks from the most significant byte to the first
   difference. Equality all the way down is not less.
   */
  method IsBelow(b: Bytes, modulus: Bytes) returns (below: bool)
    requires |b| == |modulus|
    ensures below <==> LeValue(b) < LeValue(modulus)
  {
    below := false;
    var i := |b|;
    while i > 0
      invariant 0 <= i <= |b|
      invariant !below && b[i..] == modulus[i..]
    {
      i := i - 1;
      if b[i] < modulus[i] {
        CompareAt(b, modulus, i, 256);
        below := true;
        break;
      } else if b[i] > modulus[i] {
        CompareAt(modulus, b, i, 256);
        below := false;
        break;
      }
    }
  }

  /** Fr::from_le_bytes: the canonical decoder of the Rust side. */
  method FromLeBytes(b: Bytes) returns (r: Result<nat, FrError>)
    ensures r == DecodeFr(b)
    ensures r == if |b| != 32 then Failure(InvalidLength)
                 else if LeValue(b) >= FR_MODULUS then Failure(NonCanonical)
                 else Success(LeValue(b))
  {
    if |b| != 32 {
      return Failure(InvalidLength);
    }
    ModulusBytes();
    var isCanonical := IsBelow(b, MODULUS_LE);
    if !isCanonical {
      return Failure(NonCanonical);
    }
    return Success(FromLeBytesReduced(b));
  }

  /** from_le_bytes_reduced, leToFrReduced: any integer, reduced. */
  function FromLeBytesReduced(b: Bytes): nat {
    LeValue(b) % FR_MODULUS
  }

  /** The n low bytes of an integer, low byte first. */
  function LeBytes(x: nat, n: nat): (b: Bytes)
    ensures |b| == n
  {
    if n == 0 then [] else [x % 256] + LeBytes(x / 256, n - 1)
  }

  /** What canonical encoding means; out of range values are refused. */
  function EncodeFr(x: int): Result<Bytes, FrError> {
    if 0 <= x < FR_MODULUS then Success(LeBytes(x, 32)) else Failure(OutOfRange)
  }

  /** frToLe: writes 32 bytes, low byte first. */
  method FrToLe(x: int) returns (r: Result<Bytes, FrError>)
    ensures r == EncodeFr(x)
  {
    if x < 0 || x >= FR_MODULUS {
      return Failure(OutOfRange);
    }
    var out := new Byte[32](_ => 0);
    WriteLe(out, x, 32);
    assert out[..32] == out[..];
    return Success(out[..]);
  }

  /** Writes the n low bytes of an integer at the front of a buffer, low byte first. */
  method WriteLe(out: array<Byte>, x: nat, n: nat)
    requires n <= out.Length
    modifies out
    ensures out[..n] == LeBytes(x, n) && out[n..] == old(out[n..])
  {
    var v := x;
    for i := 0 to n
      invariant out[..i] + LeBytes(v, n - i) == LeBytes(x, n)
      invariant out[n..] == old(out[n..])
    {
      ghost var low := out[..i];
      LeBytesNext(low, v, n - i);
      out[i] := v % 256;
      assert out[..i + 1] == low + [v % 256];
      v := v / 256;
    }
    assert out[..n] + LeBytes(v, 0) == out[..n];
  }

  lemma LeBytesNext(low: Bytes, v: nat, n: nat)
    requires n > 0
    ensures low + LeBytes(v, n) == low + [v % 256] + LeBytes(v / 256, n - 1)
  {
  }

  /** n bytes hold the integer modulo 256^n. */
  lemma {:induction false} LeBytesWrap(x: nat, n: nat)
    ensures Pow(256, n) > 0
    ensures LeValue(LeBytes(x, n)) == x % Pow(256, n)
  {
    if n > 0 {
      LeBytesWrap(x / 256, n - 1);
      assert LeBytes(x, n)[1..] == LeBytes(x / 256, n - 1);
      RemainderSplit(x, Pow(256, n - 1));
    }
  }

  lemma RemainderSplit(x: nat, p: nat)
    requires p > 0
    ensures x % (256 * p) == x % 256 + 256 * (x / 256 % p)
  {
    if p == 1 {
      assert x / 256 % 1 == 0;
    } else {
      var y := x / 256;
      DivModIdentity(y, p);
      DivModIdentity(x, 256 * p);
      assert 256 * (p * (y / p)) == (256 * p) * (y / p);
      QuotientUnique(x / (256 * p), x % (256 * p), y / p, x % 256 + 256 * (y % p), 256 * p);
    }
  }

  lemma SmallRemainder(x: nat, p: nat)
    requires x < p
    ensures x % p == x
  {
  }

  lemma ModulusFits()
    ensures FR_MODULUS < Pow(256, 32)
  {
    ModulusBytes();
    EvalBound(MODULUS_LE, 256);
  }

  /** Decoding inverts encoding on every field element. */
  lemma DecodeEncode(x: nat)
    requires x < FR_MODULUS
    ensures EncodeFr(x).Success? && DecodeFr(EncodeFr(x).value) == Success(x)
  {
    ModulusFits();
    LeBytesWrap(x, 32);
    SmallRemainder(x, Pow(256, 32));
  }

  /** Encoding inverts decoding on every accepted byte string, so an element has one encoding only. */
  lemma EncodeDecode(b: Bytes)
    requires DecodeFr(b).Success?
    ensures EncodeFr(DecodeFr(b).value) == Success(b)
  {
    var x := LeValue(b);
    DecodeEncode(x);
    SameLengthSameValue(b, LeBytes(x, 32), 256);
  }
}
