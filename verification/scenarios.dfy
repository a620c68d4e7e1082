/**
 The behaviour of single invocations `NAME(value)` and of mixed lines, first
 for whole families of values and then for single invocations such as
 `MOVETO(1,2)`, `MOVETO(,)`, `ATSPEED(AUTO)`, `ATSPEED(-5)`, `WITHHDOP(0.5)`,
 `WITHHDOP(1.5)`, `WAIT(5)`, `WAIT(0)` and `WAIT(abc)`.
 */
module Scenarios {
  import opened JsString
  import opened JsNumber
  import opened Registry
  import opened Diagnostics
  import opened Validators
  import opened Validation

  /** The invocation `NAME(x)` as written in a script. */
  function Invocation(k: Key, x: string): string {
    Name(k) + "(" + x + ")"
  }

  /** A value written without surrounding blanks and without `)`. */
  predicate Plain(v: string) {
    v != [] && ')' !in v && Trimmed(v)
  }

  // ---------------------------------------------------------------------
  // Families of invocations.
  // ---------------------------------------------------------------------

  /** `NAME()` draws the arity message "received 0" from every validator. */
  lemma EmptyInvocation(k: Key, line: nat, start: int)
    requires k != Auto
    ensures Validate(k, Invocation(k, ""), line, start) == [ArityDiagnostic(k, line, 0)]
  {
    ArgumentOf(k, "");
    ValidateMessages(k, Invocation(k, ""), line, start);
  }

  /** With no `)` after the key the scanner hands over the empty text, which
      also draws "received 0". */
  lemma MissingParenthesis(k: Key, line: nat, start: int)
    requires k != Auto
    ensures Validate(k, "", line, start) == [ArityDiagnostic(k, line, 0)]
  {
    assert !Contains("", Name(k) + "(");
    assert !Contains("", ")");
    ValidateMessages(k, "", line, start);
  }

  /** MOVETO with two numbers around one comma is accepted. */
  lemma MoveToNumbers(x: string, y: string, line: nat, start: int)
    requires ')' !in x && ')' !in y && ',' !in x && ',' !in y
    requires !IsNaN(ToNumber(x)) && !IsNaN(ToNumber(y))
    ensures EvalMoveTo(Invocation(MoveTo, x + "," + y), line, start) == []
  {
    var a := x + "," + y;
    assert ')' !in a;
    ArgumentOf(MoveTo, a);
    assert a[..|x|] == x && a[|x| + 1..] == y;
    assert OnlyCommaAt(a, |x|);
  }

  /** MOVETO with a piece that is not a number is refused, quoting both. */
  lemma MoveToNotNumbers(x: string, y: string, line: nat, start: int)
    requires ')' !in x && ')' !in y && ',' !in x && ',' !in y
    requires IsNaN(ToNumber(x)) || IsNaN(ToNumber(y))
    ensures EvalMoveTo(Invocation(MoveTo, x + "," + y), line, start)
         == [Diagnostic(ColumnZero(line), NotNumbers(x, y))]
  {
    var a := x + "," + y;
    assert ')' !in a;
    ArgumentOf(MoveTo, a);
    assert a[..|x|] == x && a[|x| + 1..] == y;
    MoveToRefused(Invocation(MoveTo, a), line, start, |x|);
  }

  /** MOVETO with other than one comma is refused with the number of pieces
      the argument splits into. */
  lemma MoveToCommas(a: string, line: nat, start: int)
    requires a != [] && ')' !in a && CountChar(a, ',') != 1
    ensures EvalMoveTo(Invocation(MoveTo, a), line, start)
         == [Diagnostic(ColumnZero(line), WrongArity(MoveTo, 2, CountChar(a, ',') + 1))]
  {
    MoveToPieces(Invocation(MoveTo, a), line, start);
    ArgumentOf(MoveTo, a);
  }

  /** ATSPEED refuses a value below zero as not positive. */
  lemma SpeedBelowZero(v: string, line: nat, start: int)
    requires Plain(v) && LessThan(ToNumber(v), 0.0)
    ensures EvalAtSpeed(Invocation(AtSpeed, v), line, start)
         == [ValueDiagnostic(AtSpeed, line, start, v, NotPositive(AtSpeed, v))]
  {
    AtSpeedMessages(Invocation(AtSpeed, v), line, start);
    ArgumentOf(AtSpeed, v);
    TrimmedIsFixed(v);
  }

  /** ATSPEED refuses what is neither a number nor `AUTO`. */
  lemma SpeedNotNumber(v: string, line: nat, start: int)
    requires Plain(v) && v != "AUTO" && IsNaN(ToNumber(v))
    ensures EvalAtSpeed(Invocation(AtSpeed, v), line, start)
         == [ValueDiagnostic(AtSpeed, line, start, v, NotNumberOrAuto(AtSpeed, v))]
  {
    AtSpeedMessages(Invocation(AtSpeed, v), line, start);
    ArgumentOf(AtSpeed, v);
    TrimmedIsFixed(v);
  }

  /** ATSPEED accepts `AUTO` and numbers that are not negative. */
  lemma SpeedAccepted(v: string, line: nat, start: int)
    requires Plain(v) && SpeedValue(v)
    ensures EvalAtSpeed(Invocation(AtSpeed, v), line, start) == []
  {
    ArgumentOf(AtSpeed, v);
    TrimmedIsFixed(v);
  }

  /** WITHHDOP accepts numbers from 0 to 1. */
  lemma HdopAccepted(v: string, line: nat, start: int)
    requires Plain(v) && HdopValue(v)
    ensures EvalWithHdop(Invocation(WithHdop, v), line, start) == []
  {
    ArgumentOf(WithHdop, v);
    TrimmedIsFixed(v);
  }

  /** WITHHDOP refuses numbers outside 0 to 1. */
  lemma HdopOutOfRange(v: string, line: nat, start: int)
    requires Plain(v) && OutOfRange(ToNumber(v), 0.0, 1.0)
    ensures EvalWithHdop(Invocation(WithHdop, v), line, start)
         == [ValueDiagnostic(WithHdop, line, start, v, NotBetween(WithHdop, 0, 1, v))]
  {
    WithHdopMessages(Invocation(WithHdop, v), line, start);
    ArgumentOf(WithHdop, v);
    TrimmedIsFixed(v);
  }

  /** WAIT accepts digits that are not all `0`. */
  lemma WaitAccepted(v: string, line: nat, start: int)
    requires Plain(v) && WaitValue(v)
    ensures EvalWait(Invocation(Wait, v), line, start) == []
  {
    ArgumentOf(Wait, v);
    TrimmedIsFixed(v);
  }

  /** WAIT refuses a run of zeros with the "greater than 1" message. */
  lemma WaitAllZeros(v: string, line: nat, start: int)
    requires Plain(v) && AllDigits(v) && forall i :: 0 <= i < |v| ==> v[i] == '0'
    ensures EvalWait(Invocation(Wait, v), line, start)
         == [ValueDiagnostic(Wait, line, start, v, NotGreaterThan(Wait, 1, v))]
  {
    WaitMessages(Invocation(Wait, v), line, start);
    ArgumentOf(Wait, v);
    TrimmedIsFixed(v);
  }

  /** WAIT refuses anything but digits as not a number. */
  lemma WaitNotDigits(v: string, line: nat, start: int)
    requires Plain(v) && !AllDigits(v)
    ensures EvalWait(Invocation(Wait, v), line, start)
         == [ValueDiagnostic(Wait, line, start, v, NotNumber(Wait, v))]
  {
    WaitMessages(Invocation(Wait, v), line, start);
    ArgumentOf(Wait, v);
    TrimmedIsFixed(v);
  }

  // ---------------------------------------------------------------------
  // The sample inputs.
  // ---------------------------------------------------------------------

  lemma MoveToOneTwo(line: nat, start: int)
    ensures EvalMoveTo("MOVETO(1,2)", line, start) == []
  {
    assert Invocation(MoveTo, "1" + "," + "2") == "MOVETO(1,2)";
    DigitsAreNumbers("1");
    DigitsAreNumbers("2");
    MoveToNumbers("1", "2", line, start);
  }

  /** `Number('')` is 0, so `MOVETO(,)` passes. */
  lemma MoveToBlanks(line: nat, start: int)
    ensures EvalMoveTo("MOVETO(,)", line, start) == []
  {
    assert Invocation(MoveTo, "" + "," + "") == "MOVETO(,)";
    MoveToNumbers("", "", line, start);
  }

  lemma MoveToNothing(line: nat, start: int)
    ensures EvalMoveTo("MOVETO()", line, start) == [Diagnostic(ColumnZero(line), WrongArity(MoveTo, 2, 0))]
  {
    assert Invocation(MoveTo, "") == "MOVETO()";
    EmptyInvocation(MoveTo, line, start);
  }

  lemma MoveToThreeValues(line: nat, start: int)
    ensures EvalMoveTo("MOVETO(1,2,3)", line, start) == [Diagnostic(ColumnZero(line), WrongArity(MoveTo, 2, 3))]
  {
    var a := "1,2,3";
    assert Invocation(MoveTo, a) == "MOVETO(1,2,3)";
    assert CountChar(a, ',') == 2;
    MoveToCommas(a, line, start);
  }

  lemma MoveToLetter(line: nat, start: int)
    ensures EvalMoveTo("MOVETO(a,2)", line, start) == [Diagnostic(ColumnZero(line), NotNumbers("a", "2"))]
  {
    assert Invocation(MoveTo, "a" + "," + "2") == "MOVETO(a,2)";
    WordIsNaN("a");
    MoveToNotNumbers("a", "2", line, start);
  }

  lemma AtSpeedAuto(line: nat, start: int)
    ensures EvalAtSpeed("ATSPEED(AUTO)", line, start) == []
  {
    assert Invocation(AtSpeed, "AUTO") == "ATSPEED(AUTO)";
    SpeedAccepted("AUTO", line, start);
  }

  lemma AtSpeedMinusFive(line: nat, start: int)
    ensures EvalAtSpeed("ATSPEED(-5)", line, start)
         == [ValueDiagnostic(AtSpeed, line, start, "-5", NotPositive(AtSpeed, "-5"))]
  {
    assert Invocation(AtSpeed, "-5") == "ATSPEED(-5)";
    assert "-5" == "-" + "5";
    NegatedDigits("5");
    SpeedBelowZero("-5", line, start);
  }

  lemma AtSpeedFoo(line: nat, start: int)
    ensures EvalAtSpeed("ATSPEED(foo)", line, start)
         == [ValueDiagnostic(AtSpeed, line, start, "foo", NotNumberOrAuto(AtSpeed, "foo"))]
  {
    assert Invocation(AtSpeed, "foo") == "ATSPEED(foo)";
    WordIsNaN("foo");
    SpeedNotNumber("foo", line, start);
  }

  lemma WithHdopHalf(line: nat, start: int)
    ensures EvalWithHdop("WITHHDOP(0.5)", line, start) == []
  {
    assert Invocation(WithHdop, "0.5") == "WITHHDOP(0.5)";
    assert "0.5" == [DigitChar(0), '.', DigitChar(5)];
    HdopPoint(0, 5, line, start);
  }

  lemma WithHdopOneAndAHalf(line: nat, start: int)
    ensures EvalWithHdop("WITHHDOP(1.5)", line, start)
         == [ValueDiagnostic(WithHdop, line, start, "1.5", NotBetween(WithHdop, 0, 1, "1.5"))]
  {
    assert Invocation(WithHdop, "1.5") == "WITHHDOP(1.5)";
    assert "1.5" == [DigitChar(1), '.', DigitChar(5)];
    HdopPointOutOfRange(1, 5, line, start);
  }

  /** `d.f` with single digits is a plain argument. */
  lemma PointPlain(d: nat, f: nat)
    requires d < 10 && f < 10
    ensures Plain([DigitChar(d), '.', DigitChar(f)])
  {
    var v := [DigitChar(d), '.', DigitChar(f)];
    assert IsDigit(v[0]) && IsDigit(v[2]);
    assert ')' !in v by {
      forall i | 0 <= i < 3 ensures v[i] != ')' {}
    }
  }

  /** WITHHDOP accepts `d.f` when d + f/10 is at most 1. */
  lemma HdopPoint(d: nat, f: nat, line: nat, start: int)
    requires d < 10 && f < 10 && d as real + f as real / 10.0 <= 1.0
    ensures EvalWithHdop(Invocation(WithHdop, [DigitChar(d), '.', DigitChar(f)]), line, start) == []
  {
    PointPlain(d, f);
    DecimalPoint(d, f);
    HdopAccepted([DigitChar(d), '.', DigitChar(f)], line, start);
  }

  /** WITHHDOP refuses `d.f` when d + f/10 is above 1. */
  lemma HdopPointOutOfRange(d: nat, f: nat, line: nat, start: int)
    requires d < 10 && f < 10 && d as real + f as real / 10.0 > 1.0
    ensures var v := [DigitChar(d), '.', DigitChar(f)];
      EvalWithHdop(Invocation(WithHdop, v), line, start)
        == [ValueDiagnostic(WithHdop, line, start, v, NotBetween(WithHdop, 0, 1, v))]
  {
    PointPlain(d, f);
    DecimalPoint(d, f);
    HdopOutOfRange([DigitChar(d), '.', DigitChar(f)], line, start);
  }

  lemma WaitFive(line: nat, start: int)
    ensures EvalWait("WAIT(5)", line, start) == []
  {
    assert Invocation(Wait, "5") == "WAIT(5)";
    assert "5"[0] != '0';
    WaitAccepted("5", line, start);
  }

  lemma WaitZero(line: nat, start: int)
    ensures EvalWait("WAIT(0)", line, start)
         == [ValueDiagnostic(Wait, line, start, "0", NotGreaterThan(Wait, 1, "0"))]
  {
    assert Invocation(Wait, "0") == "WAIT(0)";
    WaitAllZeros("0", line, start);
  }

  lemma WaitAbc(line: nat, start: int)
    ensures EvalWait("WAIT(abc)", line, start)
         == [ValueDiagnostic(Wait, line, start, "abc", NotNumber(Wait, "abc"))]
  {
    assert Invocation(Wait, "abc") == "WAIT(abc)";
    assert !IsDigit("abc"[0]);
    WaitNotDigits("abc", line, start);
  }

  /** A line that opens with `MOVETO` and holds `WAIT` further on, whatever
      surrounds them, opens with the MOVETO-and-WAIT diagnostic over the
      whole line. */
  lemma MoveToAndWait(a: string, b: string, n: nat)
    ensures var line := "MOVETO" + a + "WAIT" + b;
      var r := ValidateLine(line, n);
      |r| > 0 && r[0] == Diagnostic(Range(Position(n, 0), Position(n, |line|)), Exclusive)
  {
    Surrounded("MOVETO", a, "WAIT", b);
    OpensWithMoveTo("MOVETO" + a + "WAIT" + b, n);
  }

  /** A line that opens with `MOVETO` and holds `WAIT` opens with the
      MOVETO-and-WAIT diagnostic. */
  lemma OpensWithMoveTo(line: string, n: nat)
    requires OccursAt(line, "MOVETO", 0) && Contains(line, "WAIT")
    ensures var r := ValidateLine(line, n);
      |r| > 0 && r[0] == Diagnostic(Range(Position(n, 0), Position(n, |line|)), Exclusive)
  {
    assert line[0] == "MOVETO"[0];
    ExclusiveFirst(line, n);
  }

  /** `p + a + q + b` opens with `p` and holds `q`. */
  lemma Surrounded(p: string, a: string, q: string, b: string)
    ensures OccursAt(p + a + q + b, p, 0) && Contains(p + a + q + b, q)
  {
    var s := p + a + q + b;
    assert s[..|p|] == p;
    assert s[|p + a|..|p + a| + |q|] == q;
    assert OccursAt(s, q, |p + a|);
  }
}
