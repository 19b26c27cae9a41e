/**
 The two base-58 encoders: base58Encode in packages/relayer/src/submit.ts, which carries through a
 digit buffer, and bs58Encode in packages/sdk/src/kamino-discover.ts, which divides a big integer.
 */
module Base58 {
  import opened FieldCodec
  import opened Numerals
  import opened Wrappers

  /** The digits, capitals and small letters without 0, I, O and l. */
  const ALPHABET: string := "123456789" + "ABCDEFGH" + "JKLMN" + "PQRSTUVWXYZ" + "abcdefghijk" + "mnopqrstuvwxyz"

  /**
   Rewrites a digit string, most significant digit first, in another base: the same integer, and as
   many leading zeros as before.
   */
  function Rebase(d: seq<nat>, from: Base, to: Base): seq<nat> {
    seq(LeadingZeros(d), _ => 0) + Reverse(Digits(BeEval(d, from), to))
  }

  /** The characters of a numeral, top digit first. */
  function Render(d: seq<nat>): (s: string)
    requires IsNumeral(d, 58)
    ensures |s| == |d|
    ensures forall i {:trigger s[i]} :: 0 <= i < |d| ==> s[i] == ALPHABET[d[|d| - 1 - i]]
  {
    seq(|d|, i requires 0 <= i < |d| => ALPHABET[d[|d| - 1 - i]])
  }

  /** Base 58 as it is meant: every leading zero byte a '1', then the digits of the integer. */
  function Encode(bytes: Bytes): string {
    DigitsAreCanonical(BeEval(bytes, 256), 58);
    seq(LeadingZeros(bytes), _ => '1') + Render(Digits(BeEval(bytes, 256), 58))
  }

  /** Base-58 decoding: the position of each character, and the integer written in bytes again. */
  function Decode(s: string): Option<seq<nat>> {
    match Indices(s)
    case None => None
    case Some(d) => Some(Rebase(d, 58, 256))
  }

  function Indices(s: string): Option<seq<nat>> {
    if s == "" then Some([])
    else
      match (Indices(s[..|s| - 1]), CharIndex(s[|s| - 1]))
      case (Some(front), Some(last)) => Some(front + [last])
      case _ => None
  }

  /** Where a character stands in the alphabet. */
  function CharIndex(c: char): Option<nat> {
    if '1' <= c <= '9' then Some(c as int - '1' as int)
    else if 'A' <= c <= 'H' then Some(c as int - 'A' as int + 9)
    else if 'J' <= c <= 'N' then Some(c as int - 'J' as int + 17)
    else if 'P' <= c <= 'Z' then Some(c as int - 'P' as int + 22)
    else if 'a' <= c <= 'k' then Some(c as int - 'a' as int + 33)
    else if 'm' <= c <= 'z' then Some(c as int - 'm' as int + 44)
    else None
  }

  lemma DigitIndex(i: nat)
    requires i < 9
    ensures CharIndex("123456789"[i]) == Some(i)
  {
  }

  lemma CapitalIndex(i: nat)
    ensures i < 8 ==> CharIndex("ABCDEFGH"[i]) == Some(i + 9)
    ensures i < 5 ==> CharIndex("JKLMN"[i]) == Some(i + 17)
    ensures i < 11 ==> CharIndex("PQRSTUVWXYZ"[i]) == Some(i + 22)
  {
  }

  lemma SmallIndex(i: nat)
    ensures i < 11 ==> CharIndex("abcdefghijk"[i]) == Some(i + 33)
    ensures i < 14 ==> CharIndex("mnopqrstuvwxyz"[i]) == Some(i + 44)
  {
  }

  lemma DigitOrCapital(i: nat)
    requires i < 33
    ensures CharIndex(ALPHABET[i]) == Some(i)
  {
    if i < 9 {
      DigitIndex(i);
    } else if i < 17 {
      CapitalIndex(i - 9);
    } else if i < 22 {
      CapitalIndex(i - 17);
    } else {
      CapitalIndex(i - 22);
    }
  }

  lemma Small(i: nat)
    requires 33 <= i < 58
    ensures CharIndex(ALPHABET[i]) == Some(i)
  {
    if i < 44 {
      SmallIndex(i - 33);
    } else {
      SmallIndex(i - 44);
    }
  }

  lemma CharIndexInverts(i: nat)
    requires i < 58
    ensures CharIndex(ALPHABET[i]) == Some(i)
  {
    if i < 33 {
      DigitOrCapital(i);
    } else {
      Small(i);
    }
  }

  lemma SameIndexSameChar(c: char, d: char)
    requires CharIndex(c).Some? && CharIndex(c) == CharIndex(d)
    ensures c == d
  {
  }

  /** A character decodes to a number exactly if it stands there. */
  lemma CharIndexIff(c: char, i: nat)
    ensures CharIndex(c) == Some(i) <==> i < 58 && ALPHABET[i] == c
  {
    if i < 58 {
      CharIndexInverts(i);
      if CharIndex(c) == Some(i) {
        SameIndexSameChar(c, ALPHABET[i]);
      }
    }
  }

  lemma InAlphabetIff(c: char)
    ensures c in ALPHABET <==> CharIndex(c).Some?
  {
    if i :| 0 <= i < 58 && ALPHABET[i] == c {
      CharIndexInverts(i);
    }
    if CharIndex(c).Some? {
      CharIndexIff(c, CharIndex(c).value);
      assert ALPHABET[CharIndex(c).value] == c;
    }
  }

  /** The alphabet is the 58 digits and letters other than 0, I, O and l, in the order of their codes. */
  lemma AlphabetIs()
    ensures |ALPHABET| == 58
    ensures forall i, j :: 0 <= i < j < 58 ==> ALPHABET[i] < ALPHABET[j]
    ensures forall c :: c in ALPHABET <==>
              ('0' <= c <= '9' || 'A' <= c <= 'Z' || 'a' <= c <= 'z') && c != '0' && c != 'I' && c != 'O' && c != 'l'
  {
    forall i, j | 0 <= i < j < 58
      ensures ALPHABET[i] < ALPHABET[j]
    {
      CharIndexInverts(i);
      CharIndexInverts(j);
      IndexOrdersChars(ALPHABET[i], ALPHABET[j]);
    }
    forall c
      ensures c in ALPHABET <==> CharIndex(c).Some?
    {
      InAlphabetIff(c);
    }
  }

  lemma IndexOrdersChars(c: char, d: char)
    requires CharIndex(c).Some? && CharIndex(d).Some? && CharIndex(c).value < CharIndex(d).value
    ensures c < d
  {
  }

  /** kamino-discover.ts: one big integer, divided down. */
  method Bs58Encode(bytes: Bytes) returns (s: string)
    ensures s == Encode(bytes)
  {
    var zeros := CountZeros(bytes);
    var n: nat := 0;
    for i := 0 to |bytes|
      invariant n == BeEval(bytes[..i], 256)
    {
      BeEvalSnoc(bytes[..i], bytes[i], 256);
      assert bytes[..i + 1] == bytes[..i] + [bytes[i]];
      n := n * 256 + bytes[i];
    }
    assert bytes[..|bytes|] == bytes;
    var out := DivideDown(n);
    s := seq(zeros, _ => '1') + out;
  }

  /** The loop of bs58Encode: prepends one character per division. */
  method DivideDown(value: nat) returns (out: string)
    ensures IsNumeral(Digits(value, 58), 58) && out == Render(Digits(value, 58))
  {
    ghost var digits := Digits(value, 58);
    DigitsAreCanonical(value, 58);
    out := "";
    var n := value;
    ghost var done := 0;
    while n > 0
      invariant 0 <= done <= |digits|
      invariant Digits(n, 58) == digits[done..]
      invariant out == Render(digits[..done])
      decreases n
    {
      DivLess(n, 58);
      RenderSnoc(digits[..done], n % 58);
      assert digits[..done + 1] == digits[..done] + [n % 58];
      out := [ALPHABET[n % 58]] + out;
      n := n / 58;
      done := done + 1;
    }
    assert digits[..done] == digits;
  }

  lemma RenderSnoc(d: seq<nat>, x: nat)
    requires IsNumeral(d, 58) && x < 58
    ensures Render(d + [x]) == [ALPHABET[x]] + Render(d)
  {
  }

  lemma RenderCons(x: nat, d: seq<nat>)
    requires IsNumeral(d, 58) && x < 58
    ensures Render([x] + d) == Render(d) + [ALPHABET[x]]
  {
  }

  method CountZeros(bytes: Bytes) returns (zeros: nat)
    ensures zeros == LeadingZeros(bytes)
  {
    zeros := 0;
    assert bytes[0..] == bytes;
    while zeros < |bytes| && bytes[zeros] == 0
      invariant zeros <= |bytes|
      invariant LeadingZeros(bytes) == zeros + LeadingZeros(bytes[zeros..])
    {
      assert bytes[zeros..][1..] == bytes[zeros + 1..];
      zeros := zeros + 1;
    }
  }

  /** submit.ts: a growing buffer of base-58 digits, multiplied by 256 in place for every byte. */
  method Base58Encode(bytes: Bytes) returns (s: string)
    ensures s == Encode(bytes) + if StripZeros(bytes) == [] then "1" else ""
  {
    var zeros := CountZeros(bytes);
    ghost var body := bytes[zeros..];
    var digits: seq<nat> := [0];
    assert body[..0] == [];
    for i := zeros to |bytes|
      invariant IsBufferOf(digits, body[..i - zeros])
    {
      assert bytes[i] == body[i - zeros];
      assert body[..i + 1 - zeros] == body[..i - zeros] + [bytes[i]];
      BeEvalSnoc(body[..i - zeros], bytes[i], 256);
      digits := MulAdd(digits, bytes[i]);
    }
    assert body[..|body|] == body;
    StrippedIsDigits(bytes, 256);
    BufferSpells(digits, body);
    s := Spell(zeros, digits);
    assert body == [] ==> Render([0]) == "1";
  }

  /** The tail of base58Encode: one '1' per leading zero byte, then the buffer from the top digit down. */
  method Spell(zeros: nat, digits: seq<nat>) returns (s: string)
    requires IsNumeral(digits, 58)
    ensures s == seq(zeros, _ => '1') + Render(digits)
  {
    s := "";
    for i := 0 to zeros
      invariant s == seq(i, _ => '1')
    {
      s := s + "1";
    }
    ghost var ones := s;
    var i := |digits|;
    while i > 0
      invariant 0 <= i <= |digits|
      invariant s == ones + Render(digits[i..])
    {
      i := i - 1;
      assert digits[i..] == [digits[i]] + digits[i + 1..];
      RenderCons(digits[i], digits[i + 1..]);
      s := s + [ALPHABET[digits[i]]];
    }
    assert digits[0..] == digits;
  }

  /** The buffer holds the value of the bytes taken in; it starts as a lone zero and never has a zero on top again. */
  predicate IsBufferOf(digits: seq<nat>, bytes: seq<nat>) {
    && IsNumeral(digits, 58)
    && Eval(digits, 58) == BeEval(bytes, 256)
    && if bytes == [] then digits == [0] else digits != [] && IsCanonical(digits, 58)
  }

  lemma BufferSpells(digits: seq<nat>, body: seq<nat>)
    requires IsBufferOf(digits, body)
    ensures digits == if body == [] then [0] else Digits(BeEval(body, 256), 58)
  {
    if body != [] {
      CanonicalIsDigits(digits, 58);
    }
  }

  /** One byte into the buffer: a carry that never exceeds a byte runs up the digits, then pushes the rest. */
  method MulAdd(buffer: seq<nat>, byte: Byte) returns (digits: seq<nat>)
    requires buffer != [] && IsNumeral(buffer, 58)
    requires buffer[|buffer| - 1] != 0 || (buffer == [0] && byte != 0)
    ensures Eval(digits, 58) == 256 * Eval(buffer, 58) + byte
    ensures digits != [] && IsCanonical(digits, 58)
  {
    digits := buffer;
    var carry: nat := byte;
    for j := 0 to |digits|
      invariant |digits| == |buffer| && digits[j..] == buffer[j..]
      invariant carry < 256
      invariant IsNumeral(digits[..j], 58)
      invariant Eval(digits[..j], 58) + Pow(58, j) * carry == 256 * Eval(buffer[..j], 58) + byte
      invariant j > 0 && buffer[j - 1] != 0 ==> carry > 0
    {
      ghost var low := digits[..j];
      assert buffer[..j + 1] == buffer[..j] + [buffer[j]];
      ghost var was := carry;
      carry := carry + digits[j] * 256;
      NextDigit(low, buffer[..j], was, buffer[j], byte, carry, carry % 58, carry / 58);
      digits := digits[j := carry % 58];
      assert digits[..j + 1] == low + [carry % 58];
      carry := carry / 58;
    }
    assert digits[..|digits|] == digits && buffer[..|buffer|] == buffer;
    if carry == 0 {
      assert buffer == [0] && digits == [digits[0]];
      assert Eval(digits, 58) == digits[0] + 58 * Eval([], 58);
    }
    digits := PushCarry(digits, carry);
  }

  /** The rest of the carry goes on top, digit by digit. */
  method PushCarry(low: seq<nat>, rest: nat) returns (digits: seq<nat>)
    requires low != [] && IsNumeral(low, 58) && (rest == 0 ==> low[|low| - 1] != 0)
    ensures Eval(digits, 58) == Eval(low, 58) + Pow(58, |low|) * rest
    ensures digits != [] && IsCanonical(digits, 58)
  {
    digits := low;
    var carry := rest;
    while carry > 0
      invariant digits != [] && IsNumeral(digits, 58)
      invariant Eval(digits, 58) + Pow(58, |digits|) * carry == Eval(low, 58) + Pow(58, |low|) * rest
      invariant carry == 0 ==> digits[|digits| - 1] != 0
      decreases carry
    {
      CarryStep(digits, carry, carry / 58, carry % 58);
      digits := digits + [carry % 58];
      carry := carry / 58;
    }
  }

  lemma Carries(p: nat, p': nat, carry: nat, passed: nat, stored: nat)
    requires p' == 58 * p && carry == 58 * passed + stored
    ensures p * stored + p' * passed == p * carry
  {
    assert p * carry == p * (58 * passed) + p * stored;
    assert p' * passed == p * (58 * passed);
  }

  /** Splitting the running carry into the digit to store and the carry to pass on loses nothing. */
  lemma CarryStep(low: seq<nat>, carry: nat, passed: nat, stored: nat)
    requires carry == 58 * passed + stored
    ensures Eval(low + [stored], 58) + Pow(58, |low| + 1) * passed == Eval(low, 58) + Pow(58, |low|) * carry
  {
    EvalSnoc(low, stored, 58);
    Carries(Pow(58, |low|), Pow(58, |low| + 1), carry, passed, stored);
  }

  /** Nor does taking the next digit in, times 256. */
  lemma NextDigit(low: seq<nat>, done: seq<nat>, carry: nat, digit: nat, byte: nat, c: nat, stored: nat, passed: nat)
    requires |low| == |done| && Eval(low, 58) + Pow(58, |low|) * carry == 256 * Eval(done, 58) + byte
    requires c == carry + digit * 256 && c == 58 * passed + stored
    ensures Eval(low + [stored], 58) + Pow(58, |low| + 1) * passed == 256 * Eval(done + [digit], 58) + byte
  {
    MulStep(low, done, carry, digit, byte, c);
    CarryStep(low, c, passed, stored);
  }

  lemma MulStep(low: seq<nat>, done: seq<nat>, carry: nat, digit: nat, byte: nat, c: nat)
    requires |low| == |done| && Eval(low, 58) + Pow(58, |low|) * carry == 256 * Eval(done, 58) + byte
    requires c == carry + digit * 256
    ensures Eval(low, 58) + Pow(58, |low|) * c == 256 * Eval(done + [digit], 58) + byte
  {
    EvalSnoc(done, digit, 58);
    Absorbs(Pow(58, |low|), Eval(low, 58), carry, digit, c, byte, Eval(done, 58), Eval(done + [digit], 58));
  }

  lemma Absorbs(p: nat, value: nat, carry: nat, digit: nat, c: nat, byte: nat, done: nat, done': nat)
    requires value + p * carry == 256 * done + byte && done' == done + p * digit
    requires c == carry + digit * 256
    ensures value + p * c == 256 * done' + byte
  {
    assert p * (digit * 256) == 256 * (p * digit);
    assert p * (carry + digit * 256) == p * carry + p * (digit * 256);
  }

  /** Rewriting keeps the value and the number of leading zeros. */
  lemma RebaseKeeps(d: seq<nat>, from: Base, to: Base)
    ensures LeadingZeros(Rebase(d, from, to)) == LeadingZeros(d)
    ensures BeEval(Rebase(d, from, to), to) == BeEval(d, from)
  {
    var z, digits := LeadingZeros(d), Digits(BeEval(d, from), to);
    DigitsAreCanonical(BeEval(d, from), to);
    ZerosThenNonzero(z, Reverse(digits));
    assert Reverse(Rebase(d, from, to)) == digits + seq(z, _ => 0);
    EvalPadded(digits, z, to);
    EvalDigits(BeEval(d, from), to);
  }

  lemma RebaseSame(d: seq<nat>, b: Base)
    requires IsNumeral(d, b)
    ensures Rebase(d, b, b) == d
  {
    StrippedIsDigits(d, b);
    ReverseTwice(StripZeros(d));
    ZerosThenStripped(d);
  }

  lemma ZerosThenStripped(d: seq<nat>)
    ensures d == seq(LeadingZeros(d), _ => 0) + StripZeros(d)
  {
    PadFront(d, LeadingZeros(d));
  }

  lemma PadFront(d: seq<nat>, z: nat)
    requires z <= |d| && forall i :: 0 <= i < z ==> d[i] == 0
    ensures d == seq(z, _ => 0) + d[z..]
  {
  }

  /** Rewriting in another base and back is the identity, leading zeros included. */
  lemma RebaseBack(d: seq<nat>, from: Base, to: Base)
    requires IsNumeral(d, from)
    ensures Rebase(Rebase(d, from, to), to, from) == d
  {
    RebaseKeeps(d, from, to);
    RebaseSame(d, from);
  }

  lemma {:induction false} ZerosThenNonzero(z: nat, rest: seq<nat>)
    requires rest == [] || rest[0] != 0
    ensures LeadingZeros(seq(z, _ => 0) + rest) == z
  {
    if z > 0 {
      assert (seq(z, _ => 0) + rest)[1..] == seq(z - 1, _ => 0) + rest;
      ZerosThenNonzero(z - 1, rest);
    } else {
      assert seq(z, _ => 0) + rest == rest;
    }
  }

  /** The text is the alphabet at the digits of the bytes rewritten in base 58. */
  lemma EncodeAt(bytes: Bytes)
    ensures |Encode(bytes)| == |Rebase(bytes, 256, 58)| && IsNumeral(Rebase(bytes, 256, 58), 58)
    ensures forall i {:trigger Encode(bytes)[i]} :: 0 <= i < |Encode(bytes)| ==>
              Encode(bytes)[i] == ALPHABET[Rebase(bytes, 256, 58)[i]]
  {
    DigitsAreCanonical(BeEval(bytes, 256), 58);
  }

  lemma {:induction false} IndicesAre(s: string, d: seq<nat>)
    requires |s| == |d| && forall i {:trigger s[i]} :: 0 <= i < |s| ==> CharIndex(s[i]) == Some(d[i])
    ensures Indices(s) == Some(d)
  {
    if s != "" {
      IndicesAre(s[..|s| - 1], d[..|d| - 1]);
      assert d == d[..|d| - 1] + [d[|d| - 1]];
    }
  }

  lemma {:induction false} IndicesAt(s: string)
    requires Indices(s).Some?
    ensures |Indices(s).value| == |s| && IsNumeral(Indices(s).value, 58)
    ensures forall i {:trigger s[i]} :: 0 <= i < |s| ==> s[i] == ALPHABET[Indices(s).value[i]]
  {
    if s != "" {
      IndicesAt(s[..|s| - 1]);
      CharIndexIff(s[|s| - 1], CharIndex(s[|s| - 1]).value);
    }
  }

  /** Decoding returns the bytes, so no two byte strings share an encoding. */
  lemma DecodeEncode(bytes: Bytes)
    ensures Decode(Encode(bytes)) == Some(bytes)
  {
    var s, d := Encode(bytes), Rebase(bytes, 256, 58);
    EncodeAt(bytes);
    forall i {:trigger s[i]} | 0 <= i < |s|
      ensures CharIndex(s[i]) == Some(d[i])
    {
      CharIndexInverts(d[i]);
    }
    IndicesAre(s, d);
    RebaseBack(bytes, 256, 58);
  }

  /** Every text in the alphabet is the encoding of what it decodes to, and no other text decodes. */
  lemma EncodeDecode(s: string)
    ensures Decode(s).Some? <==> AllInAlphabet(s)
    ensures Decode(s).Some? ==> IsNumeral(Decode(s).value, 256) && Encode(Decode(s).value) == s
  {
    IndicesIff(s);
    if Indices(s).Some? {
      var d := Indices(s).value;
      var bytes := Rebase(d, 58, 256);
      IndicesAt(s);
      DigitsAreCanonical(BeEval(d, 58), 256);
      RebaseBack(d, 58, 256);
      EncodeAt(bytes);
      assert |s| == |d|;
    }
  }

  lemma AllSnoc(s: string)
    requires s != ""
    ensures AllInAlphabet(s) <==> AllInAlphabet(s[..|s| - 1]) && s[|s| - 1] in ALPHABET
  {
    var front := s[..|s| - 1];
    assert forall i :: 0 <= i < |front| ==> front[i] == s[i];
  }

  predicate AllInAlphabet(s: string) {
    forall i :: 0 <= i < |s| ==> s[i] in ALPHABET
  }

  lemma {:induction false} IndicesIff(s: string)
    ensures Indices(s).Some? <==> AllInAlphabet(s)
  {
    if s != "" {
      var front, last := s[..|s| - 1], s[|s| - 1];
      IndicesIff(front);
      InAlphabetIff(last);
      AllSnoc(s);
    }
  }

  lemma EncodeIs(bytes: Bytes, z: nat, digits: seq<nat>)
    requires z == LeadingZeros(bytes) && IsCanonical(digits, 58) && Eval(digits, 58) == BeEval(bytes, 256)
    ensures Encode(bytes) == seq(z, _ => '1') + Render(digits)
  {
    CanonicalIsDigits(digits, 58);
  }

  /** Two bytes of two digits: most significant first on either side. */
  lemma TwoDigits(x: Byte, y: Byte, high: nat, low: nat)
    requires x > 0 && 256 * x + y == 58 * high + low && 0 < high < 58 && low < 58
    ensures Encode([x, y]) == [ALPHABET[high], ALPHABET[low]]
  {
    BeEvalFew(x, y, 0, 256);
    EvalTwo(low, high, 58);
    EncodeIs([x, y], 0, [low, high]);
    assert Render([low, high]) == [ALPHABET[high], ALPHABET[low]];
  }

  /** A zero byte in front is a '1' in front. */
  lemma ZeroInFront(bytes: Bytes)
    ensures Encode([0] + bytes) == "1" + Encode(bytes)
  {
    var digits := Digits(BeEval(bytes, 256), 58);
    MoreZeros(bytes);
    DigitsAreCanonical(BeEval(bytes, 256), 58);
    EvalDigits(BeEval(bytes, 256), 58);
    EncodeIs([0] + bytes, LeadingZeros(bytes) + 1, digits);
    MoreOnes(LeadingZeros(bytes), Render(digits));
  }

  lemma MoreZeros(bytes: Bytes)
    ensures LeadingZeros([0] + bytes) == LeadingZeros(bytes) + 1 && BeEval([0] + bytes, 256) == BeEval(bytes, 256)
  {
    var zeros := [0] + bytes;
    assert zeros[1..] == bytes && Reverse(zeros) == Reverse(bytes) + seq(1, _ => 0);
    EvalPadded(Reverse(bytes), 1, 256);
  }

  lemma MoreOnes(z: nat, tail: string)
    ensures seq(z + 1, _ => '1') + tail == "1" + (seq(z, _ => '1') + tail)
  {
    assert seq(z + 1, _ => '1') == "1" + seq(z, _ => '1');
  }
}
