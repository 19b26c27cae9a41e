/** Decimal and hexadecimal text, as the note store writes it to disk. */
module TextCodec {
  import opened FieldCodec
  import opened Wrappers

  function DigitChar(d: nat): char
    requires d < 16
  {
    if d < 10 then '0' + d as char else 'a' + (d - 10) as char
  }

  /** The value of a digit or letter as a hexadecimal digit; 16 for any other character. */
  function CharDigit(c: char): (d: nat)
    ensures d <= 16
  {
    if '0' <= c <= '9' then c as int - '0' as int
    else if 'a' <= c <= 'f' then c as int - 'a' as int + 10
    else if 'A' <= c <= 'F' then c as int - 'A' as int + 10
    else 16
  }

  lemma CharDigitInverts(d: nat)
    requires d < 16
    ensures CharDigit(DigitChar(d)) == d
  {
  }

  lemma DigitCharIs(d: nat)
    requires d < 16
    ensures DigitChar(d) == "0123456789abcdef"[d]
  {
  }

  /** BigInt.toString */
  function ToDecimal(n: nat): string {
    if n < 10 then [DigitChar(n)] else ToDecimal(n / 10) + [DigitChar(n % 10)]
  }

  /** BigInt(s) on decimal digits, of which none make 0; None stands for the SyntaxError. */
  function FromDecimal(s: string): Option<nat> {
    if s == [] then Some(0)
    else
      match FromDecimal(s[..|s| - 1])
      case None => None
      case Some(high) => if CharDigit(s[|s| - 1]) < 10 then Some(high * 10 + CharDigit(s[|s| - 1])) else None
  }

  lemma {:induction false} DecimalRoundTrip(n: nat)
    ensures FromDecimal(ToDecimal(n)) == Some(n)
  {
    var s := ToDecimal(n);
    CharDigitInverts(n % 10);
    if n < 10 {
      assert s[..|s| - 1] == [];
    } else {
      DecimalRoundTrip(n / 10);
      assert s[..|s| - 1] == ToDecimal(n / 10);
    }
  }

  /** One character for a digit, and one more behind the text of the tens. */
  lemma DecimalIs(n: nat)
    ensures ToDecimal(n) == if n < 10 then ["0123456789"[n]] else ToDecimal(n / 10) + ["0123456789"[n % 10]]
  {
    DigitCharIs(n % 10);
  }

  /** A text reads as a number exactly if it is all digits, the last of which counts ones. */
  lemma {:induction false} FromDecimalIff(s: string)
    ensures FromDecimal(s).Some? <==> forall i :: 0 <= i < |s| ==> '0' <= s[i] <= '9'
    ensures s != "" && FromDecimal(s).Some? ==>
              FromDecimal(s[..|s| - 1]).Some?
              && FromDecimal(s).value == 10 * FromDecimal(s[..|s| - 1]).value + (s[|s| - 1] as int - '0' as int)
  {
    if s != "" {
      var front := s[..|s| - 1];
      FromDecimalIff(front);
      assert forall i :: 0 <= i < |front| ==> front[i] == s[i];
    }
  }

  /** Different numbers have different decimal texts, so they can serve as map keys. */
  lemma DecimalInjective(a: nat, b: nat)
    requires ToDecimal(a) == ToDecimal(b)
    ensures a == b
  {
    DecimalRoundTrip(a);
    DecimalRoundTrip(b);
  }

  /** bytesToHex */
  function BytesToHex(b: Bytes): string {
    if b == [] then "" else [DigitChar(b[0] / 16), DigitChar(b[0] % 16)] + BytesToHex(b[1..])
  }

  /** Two characters to a byte, the high half first. */
  lemma {:induction false} HexAt(b: Bytes, i: nat)
    requires i < |b|
    ensures |BytesToHex(b)| == 2 * |b|
    ensures BytesToHex(b)[2 * i] == "0123456789abcdef"[b[i] / 16]
    ensures BytesToHex(b)[2 * i + 1] == "0123456789abcdef"[b[i] % 16]
  {
    DigitCharIs(b[0] / 16);
    DigitCharIs(b[0] % 16);
    if |b| > 1 {
      HexAt(b[1..], if i > 0 then i - 1 else 0);
    }
  }

  /** White space and line ends of ECMAScript. */
  predicate IsBlank(c: char) {
    || '\U{9}' <= c <= '\U{D}' || c == ' ' || c == '\U{A0}' || c == '\U{1680}' || '\U{2000}' <= c <= '\U{200A}'
    || c == '\U{2028}' || c == '\U{2029}' || c == '\U{202F}' || c == '\U{205F}' || c == '\U{3000}' || c == '\U{FEFF}'
  }

  /**
   parseInt to the base 16 of two characters, stored in a byte: a blank or a plus sign is skipped, a minus
   sign negates, a character that is no digit ends the number, and no number at all is stored as zero.
   */
  function PairByte(c: char, d: char): Byte {
    var high, low := CharDigit(c), CharDigit(d);
    if high < 16 then (if low < 16 then high * 16 + low else high)
    else if low < 16 && (IsBlank(c) || c == '+') then low
    else if low < 16 && c == '-' then (256 - low) % 256
    else 0
  }

  /** hexToBytes: None stands for the thrown length error. */
  function HexToBytes(s: string): Option<Bytes> {
    if s == [] then Some([])
    else if |s| == 1 then None
    else
      match HexToBytes(s[2..])
      case None => None
      case Some(rest) => Some([PairByte(s[0], s[1])] + rest)
  }

  /** A text reads as bytes exactly if its length is even, and two hexadecimal digits read as the byte they spell. */
  lemma {:induction false} HexToBytesIff(s: string)
    ensures HexToBytes(s).Some? <==> |s| % 2 == 0
    ensures HexToBytes(s).Some? ==>
              && |HexToBytes(s).value| == |s| / 2
              && forall i :: 0 <= i < |s| / 2 && CharDigit(s[2 * i]) < 16 && CharDigit(s[2 * i + 1]) < 16 ==>
                   HexToBytes(s).value[i] == CharDigit(s[2 * i]) * 16 + CharDigit(s[2 * i + 1])
  {
    if |s| > 1 {
      HexToBytesIff(s[2..]);
      if |s| % 2 == 0 {
        forall i | 0 <= i < |s| / 2 && CharDigit(s[2 * i]) < 16 && CharDigit(s[2 * i + 1]) < 16
          ensures HexToBytes(s).value[i] == CharDigit(s[2 * i]) * 16 + CharDigit(s[2 * i + 1])
        {
          if i > 0 {
            assert s[2..][2 * (i - 1)] == s[2 * i] && s[2..][2 * (i - 1) + 1] == s[2 * i + 1];
          }
        }
      }
    }
  }

  lemma {:induction false} HexRoundTrip(b: Bytes)
    ensures HexToBytes(BytesToHex(b)) == Some(b)
  {
    if b != [] {
      CharDigitInverts(b[0] / 16);
      CharDigitInverts(b[0] % 16);
      HexRoundTrip(b[1..]);
      assert BytesToHex(b)[2..] == BytesToHex(b[1..]);
      assert b == [b[0]] + b[1..];
    }
  }
}
