/** Positional numerals in any base of at least two, least significant digit first. */
module Numerals {

  type Base = b: nat | b >= 2 witness 2

  function Eval(d: seq<nat>, b: Base): nat {
    if d == [] then 0 else d[0] + b * Eval(d[1..], b)
  }

  predicate IsNumeral(d: seq<nat>, b: Base) {
    forall i :: 0 <= i < |d| ==> d[i] < b
  }

  /** A numeral whose top digit, if there is one, is not zero. */
  predicate IsCanonical(d: seq<nat>, b: Base) {
    IsNumeral(d, b) && (d != [] ==> d[|d| - 1] != 0)
  }

  function Digits(n: nat, b: Base): seq<nat>
    decreases n
  {
    if n == 0 then [] else DivLess(n, b); [n % b] + Digits(n / b, b)
  }

  function Pow(b: nat, e: nat): nat {
    if e == 0 then 1 else b * Pow(b, e - 1)
  }

  function Reverse(s: seq<nat>): (r: seq<nat>)
    ensures |r| == |s|
    ensures forall i {:trigger r[i]} :: 0 <= i < |s| ==> r[i] == s[|s| - 1 - i]
  {
    seq(|s|, i requires 0 <= i < |s| => s[|s| - 1 - i])
  }

  lemma MulMonotone(b: nat, x: int, y: int)
    requires x <= y
    ensures b * x <= b * y
  {
  }

  lemma MulSucc(b: nat, x: int)
    ensures b * (x + 1) == b * x + b
  {
  }

  lemma DivModIdentity(n: nat, b: Base)
    ensures n == b * (n / b) + n % b
  {
  }

  lemma DivLess(n: nat, b: Base)
    requires n > 0
    ensures n / b < n
  {
    var q := n / b;
    DivModIdentity(n, b);
    MulMonotone(q, 2, b);
  }

  /** Quotient and remainder are unique. */
  lemma QuotientUnique(q: int, r: nat, x: int, d: nat, b: Base)
    requires r < b && d < b
    requires b * q + r == b * x + d
    ensures q == x && r == d
  {
    if q < x {
      MulMonotone(b, q + 1, x);
      MulSucc(b, q);
    } else if x < q {
      MulMonotone(b, x + 1, q);
      MulSucc(b, x);
    }
  }

  /** A digit and the rest of a numeral come apart again by division. */
  lemma SplitLowDigit(d: nat, x: nat, b: Base)
    requires d < b
    ensures (d + b * x) / b == x && (d + b * x) % b == d
  {
    var n := d + b * x;
    DivModIdentity(n, b);
    QuotientUnique(n / b, n % b, x, d, b);
  }

  lemma {:induction false} DigitsAreCanonical(n: nat, b: Base)
    ensures IsCanonical(Digits(n, b), b)
    ensures Digits(n, b) == [] <==> n == 0
    decreases n
  {
    if n > 0 {
      DivLess(n, b);
      DigitsAreCanonical(n / b, b);
      if n / b == 0 {
        DivModIdentity(n, b);
      }
    }
  }

  /** Dividing down and evaluating back is the identity. */
  lemma {:induction false} EvalDigits(n: nat, b: Base)
    ensures Eval(Digits(n, b), b) == n
    decreases n
  {
    if n > 0 {
      DivLess(n, b);
      EvalDigits(n / b, b);
      assert Digits(n, b)[1..] == Digits(n / b, b);
      DivModIdentity(n, b);
    }
  }

  lemma DigitsCons(low: nat, high: nat, b: Base)
    requires low < b && low + high > 0
    ensures low + b * high > 0
    ensures Digits(low + b * high, b) == [low] + Digits(high, b)
  {
    MulMonotone(b, 0, high);
    if high > 0 {
      MulMonotone(b, 1, high);
    }
    SplitLowDigit(low, high, b);
  }

  /** Canonical numerals are the only ones of their value. */
  lemma {:induction false} CanonicalIsDigits(d: seq<nat>, b: Base)
    requires IsCanonical(d, b)
    ensures d == Digits(Eval(d, b), b)
    ensures d != [] ==> Eval(d, b) > 0
  {
    if d != [] {
      var rest := d[1..];
      assert rest != [] ==> rest[|rest| - 1] == d[|d| - 1];
      assert forall i :: 0 <= i < |rest| ==> rest[i] == d[i + 1];
      CanonicalIsDigits(rest, b);
      DigitsCons(d[0], Eval(rest, b), b);
      assert d == [d[0]] + rest;
    }
  }

  lemma SameLowDigit(low: nat, high: nat, low': nat, high': nat, b: Base)
    requires low < b && low' < b && low + b * high == low' + b * high'
    ensures low == low' && high == high'
  {
    SplitLowDigit(low, high, b);
    SplitLowDigit(low', high', b);
  }

  /** Numerals of one length are determined by their value. */
  lemma {:induction false} SameLengthSameValue(c: seq<nat>, d: seq<nat>, b: Base)
    requires IsNumeral(c, b) && IsNumeral(d, b)
    requires |c| == |d| && Eval(c, b) == Eval(d, b)
    ensures c == d
  {
    if c != [] {
      assert forall i :: 0 <= i < |c[1..]| ==> c[1..][i] == c[i + 1] && d[1..][i] == d[i + 1];
      SameLowDigit(c[0], Eval(c[1..], b), d[0], Eval(d[1..], b), b);
      SameLengthSameValue(c[1..], d[1..], b);
      assert c == [c[0]] + c[1..] && d == [d[0]] + d[1..];
    }
  }

  lemma Distributes(b: nat, e: nat, p: nat, x: nat)
    ensures b * (e + p * x) == b * e + b * p * x
  {
    assert b * (p * x) == b * p * x;
  }

  lemma {:induction false} EvalConcat(c: seq<nat>, d: seq<nat>, b: Base)
    ensures Eval(c + d, b) == Eval(c, b) + Pow(b, |c|) * Eval(d, b)
  {
    if c == [] {
      assert c + d == d;
    } else {
      assert (c + d)[1..] == c[1..] + d && (c + d)[0] == c[0];
      calc {
        Eval(c + d, b);
      ==
        c[0] + b * Eval(c[1..] + d, b);
      == { EvalConcat(c[1..], d, b); }
        c[0] + b * (Eval(c[1..], b) + Pow(b, |c| - 1) * Eval(d, b));
      == { Distributes(b, Eval(c[1..], b), Pow(b, |c| - 1), Eval(d, b)); }
        c[0] + b * Eval(c[1..], b) + b * Pow(b, |c| - 1) * Eval(d, b);
      ==
        Eval(c, b) + Pow(b, |c|) * Eval(d, b);
      }
    }
  }

  /** Adding a digit on top. */
  lemma EvalSnoc(c: seq<nat>, x: nat, b: Base)
    ensures Eval(c + [x], b) == Eval(c, b) + Pow(b, |c|) * x
  {
    EvalConcat(c, [x], b);
    assert Eval([x], b) == x + b * Eval([], b);
  }

  lemma {:induction false} EvalBound(d: seq<nat>, b: Base)
    requires IsNumeral(d, b)
    ensures Eval(d, b) < Pow(b, |d|)
  {
    if d != [] {
      var rest := d[1..];
      assert forall i :: 0 <= i < |rest| ==> rest[i] == d[i + 1];
      EvalBound(rest, b);
      MulMonotone(b, Eval(rest, b) + 1, Pow(b, |rest|));
      MulSucc(b, Eval(rest, b));
    }
  }

  lemma {:induction false} EvalZeros(z: nat, b: Base)
    ensures Eval(seq(z, _ => 0), b) == 0
  {
    if z > 0 {
      assert seq(z, _ => 0)[1..] == seq(z - 1, _ => 0);
      EvalZeros(z - 1, b);
    }
  }

  /** Zeros on top do not count. */
  lemma EvalPadded(d: seq<nat>, z: nat, b: Base)
    ensures Eval(d + seq(z, _ => 0), b) == Eval(d, b)
  {
    EvalConcat(d, seq(z, _ => 0), b);
    EvalZeros(z, b);
  }

  /** The topmost difference decides the order. */
  lemma CompareAt(c: seq<nat>, d: seq<nat>, k: nat, b: Base)
    requires IsNumeral(c, b) && IsNumeral(d, b)
    requires k < |c| == |d|
    requires c[k] < d[k]
    requires c[k + 1..] == d[k + 1..]
    ensures Eval(c, b) < Eval(d, b)
  {
    var top := c[k + 1..];
    EvalConcat(c[..k + 1], top, b);
    EvalConcat(d[..k + 1], top, b);
    assert c == c[..k + 1] + top && d == d[..k + 1] + top;
    CompareTop(c[..k + 1], d[..k + 1], b);
  }

  lemma HighPartWins(p: nat, x: nat, y: nat, low: nat, low': nat)
    requires x < y && low < p
    ensures low + p * x < low' + p * y
  {
    MulSucc(p, x);
    MulMonotone(p, x + 1, y);
  }

  lemma CompareTop(c: seq<nat>, d: seq<nat>, b: Base)
    requires IsNumeral(c, b) && IsNumeral(d, b)
    requires |c| == |d| > 0
    requires c[|c| - 1] < d[|c| - 1]
    ensures Eval(c, b) < Eval(d, b)
  {
    var k := |c| - 1;
    assert c == c[..k] + [c[k]] && d == d[..k] + [d[k]];
    EvalSnoc(c[..k], c[k], b);
    EvalSnoc(d[..k], d[k], b);
    EvalBound(c[..k], b);
    HighPartWins(Pow(b, k), c[k], d[k], Eval(c[..k], b), Eval(d[..k], b));
  }

  lemma EvalTwo(x: nat, y: nat, b: Base)
    ensures Eval([x, y], b) == x + b * y
  {
    assert [x, y][1..] == [y] && [y][1..] == [];
    assert Eval([y], b) == y + b * Eval([], b);
  }

  // ----- Most significant digit first -----

  /** The integer that a digit string denotes, most significant digit first. */
  function BeEval(d: seq<nat>, b: Base): nat {
    Eval(Reverse(d), b)
  }

  function LeadingZeros(d: seq<nat>): (z: nat)
    ensures z <= |d|
    ensures forall i :: 0 <= i < z ==> d[i] == 0
    ensures z < |d| ==> d[z] != 0
  {
    if d == [] || d[0] != 0 then 0 else 1 + LeadingZeros(d[1..])
  }

  function StripZeros(d: seq<nat>): seq<nat> {
    d[LeadingZeros(d)..]
  }

  /** One Horner step from the top. */
  lemma BeEvalSnoc(d: seq<nat>, x: nat, b: Base)
    ensures BeEval(d + [x], b) == b * BeEval(d, b) + x
  {
    assert Reverse(d + [x])[1..] == Reverse(d);
  }

  /** The first digit weighs most. */
  lemma BeEvalFew(x: nat, y: nat, z: nat, b: Base)
    ensures BeEval([x], b) == x && BeEval([x, y], b) == b * x + y && BeEval([x, y, z], b) == b * (b * x + y) + z
  {
    BeEvalSnoc([], x, b);
    BeEvalSnoc([x], y, b);
    BeEvalSnoc([x, y], z, b);
    assert [] + [x] == [x] && [x] + [y] == [x, y] && [x, y] + [z] == [x, y, z];
  }

  /** What is left after the leading zeros are the canonical digits of the value. */
  lemma StrippedIsDigits(d: seq<nat>, b: Base)
    requires IsNumeral(d, b)
    ensures BeEval(StripZeros(d), b) == BeEval(d, b)
    ensures Reverse(StripZeros(d)) == Digits(BeEval(d, b), b)
    ensures StripZeros(d) == [] <==> BeEval(d, b) == 0
  {
    var z := LeadingZeros(d);
    assert Reverse(d) == Reverse(StripZeros(d)) + seq(z, _ => 0);
    EvalPadded(Reverse(StripZeros(d)), z, b);
    CanonicalIsDigits(Reverse(StripZeros(d)), b);
    DigitsAreCanonical(BeEval(d, b), b);
  }

  /** Two digit strings have one value exactly when they differ in leading zeros only. */
  lemma SameValueIff(c: seq<nat>, d: seq<nat>, b: Base)
    requires IsNumeral(c, b) && IsNumeral(d, b)
    ensures BeEval(c, b) == BeEval(d, b) <==> StripZeros(c) == StripZeros(d)
  {
    StrippedIsDigits(c, b);
    StrippedIsDigits(d, b);
    ReverseTwice(StripZeros(c));
    ReverseTwice(StripZeros(d));
  }

  lemma ReverseTwice(s: seq<nat>)
    ensures Reverse(Reverse(s)) == s
  {
  }
}
