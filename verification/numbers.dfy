/**
 JavaScript's `Number(s)` on a string (the StringToNumber conversion of
 section 7.1.4.1 of ECMA-262), over exact reals instead of IEEE-754
 doubles, together with the digit-string helpers the validators use:
 the regular expression `^[0-9]+$` and the decimal rendering of a count.
 */
module JsNumber {
  import opened Wrappers
  import opened JsString

  /** The outcome of `Number(s)`: not a number, a finite value, or an infinity. */
  datatype Number = NaN | Finite(value: real) | Infinity(negative: bool)

  /** `isNaN(n)`. */
  predicate IsNaN(n: Number) {
    n.NaN?
  }

  /** `n < c`; every comparison with NaN is false. */
  predicate LessThan(n: Number, c: real) {
    match n
    case NaN => false
    case Finite(v) => v < c
    case Infinity(negative) => negative
  }

  /** `n > c`; every comparison with NaN is false. */
  predicate GreaterThan(n: Number, c: real) {
    match n
    case NaN => false
    case Finite(v) => v > c
    case Infinity(negative) => !negative
  }

  /** The value of `c` as a digit of base 36 or less, or -1. */
  function DigitValue(c: char): (d: int)
    ensures -1 <= d < 36
  {
    if '0' <= c <= '9' then c as int - '0' as int
    else if 'a' <= c <= 'z' then c as int - 'a' as int + 10
    else if 'A' <= c <= 'Z' then c as int - 'A' as int + 10
    else -1
  }

  predicate IsDigitIn(c: char, base: nat) {
    0 <= DigitValue(c) < base
  }

  predicate IsDigit(c: char) {
    '0' <= c <= '9'
  }

  /** Every character of `s` is a digit of `base` (`s` may be empty). */
  predicate DigitsIn(s: string, base: nat) {
    forall i :: 0 <= i < |s| ==> IsDigitIn(s[i], base)
  }

  /** `/^[0-9]+$/.test(s)`: a non-empty run of decimal digits and nothing else. */
  predicate AllDigits(s: string) {
    |s| > 0 && forall i :: 0 <= i < |s| ==> IsDigit(s[i])
  }

  /** The value of the digit string `s` in `base`, most significant first. */
  function ValueIn(s: string, base: nat): nat
    requires DigitsIn(s, base)
    decreases |s|
  {
    if s == [] then 0
    else ValueIn(s[..|s| - 1], base) * base + DigitValue(s[|s| - 1])
  }

  function Pow10(n: nat): (r: nat)
    ensures r >= 1
  {
    if n == 0 then 1 else 10 * Pow10(n - 1)
  }

  /** Powers of ten add their exponents when multiplied. */
  lemma {:induction false} Pow10Add(a: nat, b: nat)
    ensures Pow10(a + b) == Pow10(a) * Pow10(b)
    decreases b
  {
    if b > 0 {
      Pow10Add(a, b - 1);
      assert Pow10(a + b) == 10 * Pow10(a + b - 1);
    }
  }

  /** `m` times ten to the power `e`. */
  function Scale(m: real, e: int): (r: real)
    ensures m >= 0.0 ==> r >= 0.0
  {
    if e >= 0 then m * Pow10(e) as real else m / Pow10(-e) as real
  }

  /** A StrUnsignedDecimalLiteral without its exponent: `DecimalDigits`,
      `DecimalDigits . DecimalDigits?` or `. DecimalDigits`. */
  function ParseMantissa(m: string): (r: Option<real>)
    ensures r.Some? ==> r.value >= 0.0
  {
    var dot := IndexOf(m, ".");
    if dot < 0 then
      if AllDigits(m) then Some(ValueIn(m, 10) as real) else None
    else
      var whole := m[..dot];
      var fraction := m[dot + 1..];
      if DigitsIn(whole, 10) && DigitsIn(fraction, 10) && (whole != [] || fraction != []) then
        Some(ValueIn(whole, 10) as real + ValueIn(fraction, 10) as real / Pow10(|fraction|) as real)
      else None
  }

  /** The SignedInteger of an exponent part: an optional sign and digits. */
  function ParseExponent(t: string): Option<int> {
    if |t| > 0 && (t[0] == '+' || t[0] == '-') then
      if AllDigits(t[1..]) then
        Some(if t[0] == '-' then -(ValueIn(t[1..], 10) as int) else ValueIn(t[1..], 10))
      else None
    else if AllDigits(t) then Some(ValueIn(t, 10))
    else None
  }

  /** The first index of `e` or `E` in `u`, or -1. */
  function ExponentMark(u: string): (r: int)
    ensures r == -1 || (0 <= r < |u| && (u[r] == 'e' || u[r] == 'E'))
    ensures forall i :: 0 <= i < |u| && (r == -1 || i < r) ==> u[i] != 'e' && u[i] != 'E'
  {
    if u == [] then -1
    else if u[0] == 'e' || u[0] == 'E' then 0
    else
      var r := ExponentMark(u[1..]);
      if r < 0 then -1 else r + 1
  }

  /** A StrUnsignedDecimalLiteral other than `Infinity`. */
  function ParseUnsignedDecimal(u: string): (r: Option<real>)
    ensures r.Some? ==> r.value >= 0.0
  {
    var e := ExponentMark(u);
    if e < 0 then ParseMantissa(u)
    else
      match (ParseMantissa(u[..e]), ParseExponent(u[e + 1..]))
      case (Some(m), Some(x)) => Some(Scale(m, x))
      case _ => None
  }

  /** The base announced by a `0x`, `0o` or `0b` prefix, or 0 for none. */
  function RadixOf(t: string): nat {
    if |t| < 2 || t[0] != '0' then 0
    else if t[1] == 'x' || t[1] == 'X' then 16
    else if t[1] == 'o' || t[1] == 'O' then 8
    else if t[1] == 'b' || t[1] == 'B' then 2
    else 0
  }

  /** `Number(s)` for a string `s`: white space around the literal is
      ignored, an empty or all-white string is 0, `Infinity` may be signed,
      decimal literals may be signed and carry a fraction and an exponent,
      and `0x`/`0o`/`0b` literals are unsigned; anything else is NaN. */
  function ToNumber(s: string): (r: Number)
    ensures Trim(s) == [] ==> r == Finite(0.0)
    ensures r.Finite? && r.value < 0.0 ==> Trim(s)[0] == '-'
  {
    var t := Trim(s);
    if t == [] then Finite(0.0)
    else if RadixOf(t) != 0 then
      var body := t[2..];
      if body != [] && DigitsIn(body, RadixOf(t)) then Finite(ValueIn(body, RadixOf(t)) as real)
      else NaN
    else
      var negative := t[0] == '-';
      var u := if t[0] == '-' || t[0] == '+' then t[1..] else t;
      if u == "Infinity" then Infinity(negative)
      else
        match ParseUnsignedDecimal(u)
        case None => NaN
        case Some(v) => Finite(if negative then -v else v)
  }

  /** White space around the literal never matters: `Number(s)` is
      `Number(s.trim())`, and an all-white string is 0. */
  lemma ToNumberTrim(s: string)
    ensures ToNumber(s) == ToNumber(Trim(s))
    ensures AllWhite(s) ==> ToNumber(s) == Finite(0.0)
  {
    TrimIdempotent(s);
    TrimEmptyIffAllWhite(s);
  }

  /** The base a prefix letter announces: `x` 16, `o` 8, `b` 2, either case. */
  function PrefixBase(m: char): nat {
    if m == 'x' || m == 'X' then 16 else if m == 'o' || m == 'O' then 8 else 2
  }

  /** `0x`, `0o` and `0b` literals: the digits after the prefix, read in
      the announced base; without digits, or with a digit outside the base,
      the literal is NaN. */
  lemma RadixLiteral(m: char, h: string)
    requires m in "xXoObB"
    requires h == [] || !IsWhite(h[|h| - 1])
    ensures var base := PrefixBase(m);
      ToNumber(['0', m] + h) == if h != [] && DigitsIn(h, base) then Finite(ValueIn(h, base) as real) else NaN
  {
    PrefixedLiteral(m, h);
    ToNumberRadix(['0', m] + h);
  }

  lemma PrefixedLiteral(m: char, h: string)
    requires m in "xXoObB"
    requires h == [] || !IsWhite(h[|h| - 1])
    ensures var t := ['0', m] + h;
      Trimmed(t) && RadixOf(t) == PrefixBase(m) && RadixOf(t) != 0 && t[2..] == h
  {
    var t := ['0', m] + h;
    assert t[0] == '0' && t[1] == m;
    if h != [] { assert t[|t| - 1] == h[|h| - 1]; }
    assert t[2..] == h;
  }

  /** `Number` of a trimmed literal with a base prefix. */
  lemma ToNumberRadix(t: string)
    requires Trimmed(t) && RadixOf(t) != 0
    ensures ToNumber(t) == if t[2..] != [] && DigitsIn(t[2..], RadixOf(t)) then Finite(ValueIn(t[2..], RadixOf(t)) as real) else NaN
  {
    TrimmedIsFixed(t);
  }

  /** `Number` of a trimmed unsigned decimal literal other than `Infinity`. */
  lemma ToNumberDecimal(t: string, v: real)
    requires Trimmed(t) && t != [] && RadixOf(t) == 0 && t[0] != '-' && t[0] != '+' && t != "Infinity"
    requires ParseUnsignedDecimal(t) == Some(v)
    ensures ToNumber(t) == Finite(v)
  {
    TrimmedIsFixed(t);
  }

  /** A decimal literal with an exponent: the value of `m` times ten to the
      power `x`. */
  lemma Exponent(m: string, x: string)
    requires AllDigits(m) && AllDigits(x)
    ensures ToNumber(m + "e" + x) == Finite(Scale(ValueIn(m, 10) as real, ValueIn(x, 10)))
  {
    SignedExponent(x, false, x);
    DecimalWithExponent(m, x, ValueIn(x, 10));
  }

  /** A decimal literal with a negative exponent: the value of `m` times ten
      to the power `-x`. */
  lemma NegativeExponent(m: string, x: string)
    requires AllDigits(m) && AllDigits(x)
    ensures ToNumber(m + "e-" + x) == Finite(Scale(ValueIn(m, 10) as real, -(ValueIn(x, 10) as int)))
  {
    NegativeExponentPart(x);
    DecimalWithExponent(m, "-" + x, -(ValueIn(x, 10) as int));
    MinusMark(m, x);
  }

  lemma NegativeExponentPart(x: string)
    requires AllDigits(x)
    ensures var tail := "-" + x;
      ParseExponent(tail) == Some(-(ValueIn(x, 10) as int)) && tail != [] && IsDigit(tail[|tail| - 1])
  {
    var tail := "-" + x;
    SignedExponent(x, true, tail);
    assert tail[|tail| - 1] == x[|x| - 1];
  }

  lemma MinusMark(m: string, x: string)
    ensures m + "e-" + x == m + "e" + ("-" + x)
  {
  }

  /** Digits, `e` and an exponent part: the digits' value scaled by the
      exponent. */
  lemma DecimalWithExponent(m: string, tail: string, x: int)
    requires AllDigits(m) && tail != [] && IsDigit(tail[|tail| - 1])
    requires ParseExponent(tail) == Some(x)
    ensures ToNumber(m + "e" + tail) == Finite(Scale(ValueIn(m, 10) as real, x))
  {
    var t := m + "e" + tail;
    var v := ValueIn(m, 10) as real;
    assert t[0] == m[0] && t[|t| - 1] == tail[|tail| - 1];
    assert Trimmed(t) by { assert IsDigit(t[0]); }
    assert RadixOf(t) == 0 by {
      assert t[1] == (if |m| > 1 then m[1] else 'e');
    }
    assert t != "Infinity" by { assert IsDigit(t[0]); }
    ExponentAt(m, t);
    assert t[..|m|] == m && t[|m| + 1..] == tail;
    MantissaDigits(m);
    UnsignedWithExponent(t, |m|, v, x);
    ToNumberDecimal(t, Scale(v, x));
  }

  lemma MantissaDigits(m: string)
    requires AllDigits(m)
    ensures ParseMantissa(m) == Some(ValueIn(m, 10) as real)
  {
    DigitsDecimal(m);
    ExponentAt(m, m + "e");
  }

  lemma UnsignedWithExponent(u: string, e: int, a: real, x: int)
    requires 0 <= e < |u| && ExponentMark(u) == e
    requires ParseMantissa(u[..e]) == Some(a) && ParseExponent(u[e + 1..]) == Some(x)
    ensures ParseUnsignedDecimal(u) == Some(Scale(a, x))
  {
  }

  /** In `m + rest`, `m` a digit string and `rest` opening with `e`, the
      exponent mark is the `e` just after `m`. */
  lemma ExponentAt(m: string, t: string)
    requires AllDigits(m) && |t| > |m| && t[..|m|] == m && t[|m|] == 'e'
    ensures ExponentMark(t) == |m|
  {
  }

  /** The exponent part after the mark: digits, or a minus and digits. */
  lemma SignedExponent(x: string, negative: bool, tail: string)
    requires AllDigits(x) && tail == (if negative then "-" else "") + x
    ensures ParseExponent(tail) == Some(if negative then -(ValueIn(x, 10) as int) else ValueIn(x, 10))
  {
    if negative {
      assert tail[0] == '-' && tail[1..] == x;
    } else {
      assert tail == x && IsDigit(tail[0]);
    }
  }

  /** The spellings of infinity: `Infinity`, optionally signed; a minus
      sign gives negative infinity. Any other trimmed text is not infinite. */
  lemma InfinitySpellings(s: string)
    ensures ToNumber(s).Infinity? <==> Trim(s) == "Infinity" || Trim(s) == "+Infinity" || Trim(s) == "-Infinity"
    ensures ToNumber(s).Infinity? ==> (ToNumber(s).negative <==> Trim(s) == "-Infinity")
  {
    var t := Trim(s);
    if t != [] && RadixOf(t) == 0 {
      var u := if t[0] == '-' || t[0] == '+' then t[1..] else t;
      if t[0] == '-' || t[0] == '+' {
        assert t == [t[0]] + u;
      }
    }
  }

  /** A run of decimal digits is read by `Number` as the natural number it
      spells: what `/^[0-9]+$/` lets through is never NaN and never negative. */
  lemma DigitsAreNumbers(s: string)
    requires AllDigits(s)
    ensures ToNumber(s) == Finite(ValueIn(s, 10) as real)
  {
    assert !IsWhite(s[0]) && !IsWhite(s[|s| - 1]);
    TrimmedIsFixed(s);
    assert s[0] != '-' && s[0] != '+' && s != "Infinity" by { assert IsDigit(s[0]); }
    assert RadixOf(s) == 0 by {
      if |s| >= 2 { assert IsDigit(s[1]); }
    }
    DigitsDecimal(s);
  }

  /** A run of decimal digits is an unsigned decimal literal with no point
      and no exponent. */
  lemma DigitsDecimal(s: string)
    requires AllDigits(s)
    ensures ParseUnsignedDecimal(s) == Some(ValueIn(s, 10) as real)
  {
    assert ExponentMark(s) == -1;
    assert '.' !in s by {
      forall i | 0 <= i < |s| ensures s[i] != '.' { assert IsDigit(s[i]); }
    }
    NotContainsChar(s, '.');
    assert "." == ['.'];
  }

  /** `Number('AUTO')` is NaN: the keyword is not a number. */
  lemma AutoIsNaN()
    ensures ToNumber("AUTO") == NaN
  {
    var s := "AUTO";
    assert Trimmed(s);
    TrimmedIsFixed(s);
    assert RadixOf(s) == 0;
    assert ExponentMark(s) == -1;
    assert "." == ['.'];
    NotContainsChar(s, '.');
    assert !AllDigits(s) by { assert !IsDigit(s[0]); }
    assert ParseMantissa(s) == None;
  }

  /** A trimmed word with no digit, point or sign in it, other than
      `Infinity`, is not a number. */
  lemma WordIsNaN(s: string)
    requires Trimmed(s) && s != [] && s != "Infinity"
    requires forall i :: 0 <= i < |s| ==> !IsDigit(s[i]) && s[i] !in ".+-"
    ensures ToNumber(s) == NaN
  {
    TrimmedIsFixed(s);
    assert s[0] !in ".+-" && !IsDigit(s[0]);
    assert '.' !in s by {
      forall i | 0 <= i < |s| ensures s[i] != '.' { assert s[i] !in ".+-"; }
    }
    NotContainsChar(s, '.');
    assert "." == ['.'];
    var e := ExponentMark(s);
    if e >= 0 {
      var m := s[..e];
      assert '.' !in m by {
        forall i | 0 <= i < |m| ensures m[i] != '.' { assert m[i] == s[i]; }
      }
      NotContainsChar(m, '.');
      assert !AllDigits(m) by {
        if m != [] { assert m[0] == s[0]; }
      }
    }
  }

  /** A minus sign before a run of digits negates its value. */
  lemma NegatedDigits(s: string)
    requires AllDigits(s)
    ensures ToNumber("-" + s) == Finite(-(ValueIn(s, 10) as real))
  {
    DigitsDecimal(s);
    assert IsDigit(s[0]) && IsDigit(s[|s| - 1]);
    Negated(s, ValueIn(s, 10) as real);
  }

  /** A minus sign before an unsigned decimal literal negates its value. */
  lemma Negated(u: string, v: real)
    requires u != [] && !IsWhite(u[|u| - 1]) && u != "Infinity"
    requires ParseUnsignedDecimal(u) == Some(v)
    ensures ToNumber("-" + u) == Finite(-v)
  {
    var t := "-" + u;
    assert Trimmed(t) by { assert t[|t| - 1] == u[|u| - 1]; }
    TrimmedIsFixed(t);
    assert RadixOf(t) == 0 by { assert t[0] != '0'; }
    assert t[1..] == u;
  }

  /** `d.f`, for single digits `d` and `f`, is read as d + f/10. */
  lemma DecimalPoint(d: nat, f: nat)
    requires d < 10 && f < 10
    ensures ToNumber([DigitChar(d), '.', DigitChar(f)]) == Finite(d as real + f as real / 10.0)
  {
    var v := [DigitChar(d), '.', DigitChar(f)];
    TrimmedIsFixed(v);
    assert RadixOf(v) == 0;
    assert ExponentMark(v) == -1;
    OccursAtChar(v, '.', 0);
    OccursAtChar(v, '.', 1);
    assert "." == ['.'];
    assert IndexOf(v, ".") == 1;
    assert v[..1] == [DigitChar(d)] && v[2..] == [DigitChar(f)];
    assert ValueIn([DigitChar(d)], 10) == d;
    assert ValueIn([DigitChar(f)], 10) == f;
  }

  /** The value of a digit string is zero exactly when every digit is `0`. */
  lemma {:induction false} ValueZeroIffAllZeros(s: string)
    requires DigitsIn(s, 10)
    ensures ValueIn(s, 10) == 0 <==> forall i :: 0 <= i < |s| ==> s[i] == '0'
  {
    if s != [] {
      var init := s[..|s| - 1];
      assert DigitsIn(init, 10) by {
        forall i | 0 <= i < |init| ensures IsDigitIn(init[i], 10) { assert init[i] == s[i]; }
      }
      ValueZeroIffAllZeros(init);
      assert DigitValue(s[|s| - 1]) == 0 <==> s[|s| - 1] == '0';
      if forall i :: 0 <= i < |s| ==> s[i] == '0' {
        assert forall i :: 0 <= i < |init| ==> init[i] == '0' by {
          forall i | 0 <= i < |init| ensures init[i] == '0' { assert init[i] == s[i]; }
        }
      }
      if ValueIn(s, 10) == 0 {
        forall i | 0 <= i < |s| ensures s[i] == '0' {
          if i < |s| - 1 { assert s[i] == init[i]; }
        }
      }
    }
  }

  /** The decimal digit for `d`. */
  function DigitChar(d: nat): (c: char)
    requires d < 10
    ensures IsDigit(c) && DigitValue(c) == d
  {
    "0123456789"[d]
  }

  /** `${n}`: the decimal rendering of a natural number, no leading zeros. */
  function NatToString(n: nat): (r: string)
    ensures AllDigits(r)
    ensures DigitsIn(r, 10) && ValueIn(r, 10) == n
    ensures |r| > 1 ==> r[0] != '0'
  {
    if n < 10 then
      [DigitChar(n)]
    else
      var init := NatToString(n / 10);
      var r := init + [DigitChar(n % 10)];
      assert r[..|r| - 1] == init;
      assert DigitsIn(r, 10) by {
        forall i | 0 <= i < |r| ensures IsDigitIn(r[i], 10) {
          if i < |init| { assert r[i] == init[i]; }
        }
      }
      assert r[0] == init[0];
      r
  }

  /** Rendering a count and reading it back with `Number` gives the count. */
  lemma NatToStringRoundTrip(n: nat)
    ensures ToNumber(NatToString(n)) == Finite(n as real)
  {
    DigitsAreNumbers(NatToString(n));
  }
}
