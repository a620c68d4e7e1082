/**
 The eight argument validators (`evalMoveTo` … `evalAtDirection`). Each takes
 the invocation text the scanner cut out of the line (`MOVETO(1,2)`), the
 line number and the scan offset of the invocation, strips `NAME(` and the
 first `)`, and reports what is wrong with the argument text. Arity and empty
 argument messages sit at the first character of the line, and so does
 MOVETO's "should be numbers" message. The other value messages span the
 trimmed value, counted from just past `NAME(`, except WITHPARAM's: its name
 message spans the untrimmed name, and its empty-value message is an empty
 range just past the comma.
 */
module Validators {
  import opened JsString
  import opened JsNumber
  import opened Registry
  import opened Diagnostics

  /** `raw.replace('NAME(', '').replace(')', '')`: the argument text. */
  function Argument(k: Key, raw: string): string {
    ReplaceFirst(ReplaceFirst(raw, Name(k) + "("), ")")
  }

  /** Stripping `NAME(` and `)` from an invocation `NAME(x)` gives back the
      argument text `x`, provided `x` holds no `)` of its own. */
  lemma ArgumentOf(k: Key, x: string)
    requires ')' !in x
    ensures Argument(k, Name(k) + "(" + x + ")") == x
  {
    var p := Name(k) + "(";
    assert Name(k) + "(" + x + ")" == p + (x + ")");
    ReplaceFront(p, x + ")");
    assert x + ")" == x + [')'] + [];
    ReplaceAfter(x, ')', []);
    assert x + [] == x;
  }

  /** Where value diagnostics begin: `start + 'NAME('.length`. */
  function ValueColumn(k: Key, start: int): int {
    start + |Name(k)| + 1
  }

  /** The number of values a command takes. */
  function Arity(k: Key): nat {
    if k == MoveTo || k == WithParam then 2 else 1
  }

  /** The diagnostic for an argument that is missing or has the wrong
      number of values. */
  function ArityDiagnostic(k: Key, line: nat, received: nat): Diagnostic {
    Diagnostic(ColumnZero(line), WrongArity(k, Arity(k), received))
  }

  /** A diagnostic over the trimmed value `v` of a one-value command. */
  function ValueDiagnostic(k: Key, line: nat, start: int, v: string, m: Message): Diagnostic {
    Diagnostic(Span(line, ValueColumn(k, start), |v|), m)
  }

  // ---------------------------------------------------------------------
  // The argument grammar, stated on its own terms.
  // ---------------------------------------------------------------------

  /** `n` is a number, finite or not, that is not below zero. */
  predicate NonNegative(n: Number) {
    match n
    case NaN => false
    case Finite(x) => x >= 0.0
    case Infinity(negative) => !negative
  }

  /** `n` is a finite number in the closed interval [low, high]. */
  predicate Within(n: Number, low: real, high: real) {
    n.Finite? && low <= n.value <= high
  }

  /** `n` is a number (possibly infinite) outside [low, high]. */
  predicate OutOfRange(n: Number, low: real, high: real) {
    !IsNaN(n) && !Within(n, low, high)
  }

  /** An ATSPEED value: `AUTO`, or a speed that is not negative. */
  predicate SpeedValue(v: string) {
    v == "AUTO" || NonNegative(ToNumber(v))
  }

  /** A WITHHDOP value: a number between 0 and 1. */
  predicate HdopValue(v: string) {
    Within(ToNumber(v), 0.0, 1.0)
  }

  /** An ATDIRECTION value: `AUTO`, or a number of degrees from 0 to 359. */
  predicate DirectionValue(v: string) {
    v == "AUTO" || Within(ToNumber(v), 0.0, 359.0)
  }

  /** A WAIT value: digits only, not all of them `0`. */
  predicate WaitValue(v: string) {
    AllDigits(v) && exists i :: 0 <= i < |v| && v[i] != '0'
  }

  /** A WITHPARAM name: begins and ends with a double quote. */
  predicate Quoted(name: string) {
    |name| >= 1 && name[0] == '"' && name[|name| - 1] == '"'
  }

  /** The only comma of `a` is at index `i`. */
  predicate OnlyCommaAt(a: string, i: int) {
    0 <= i < |a| && a[i] == ',' && ',' !in a[..i] && ',' !in a[i + 1..]
  }

  /** A MOVETO argument: two numbers separated by one comma. */
  ghost predicate CoordinatePair(a: string) {
    exists i :: OnlyCommaAt(a, i) && !IsNaN(ToNumber(a[..i])) && !IsNaN(ToNumber(a[i + 1..]))
  }

  /** A coordinate pair is what `split(',')` cuts into two pieces that are
      both numbers. */
  lemma CoordinatePairSplit(a: string)
    ensures var values := Split(a, ',');
      CoordinatePair(a) <==> |values| == 2 && !IsNaN(ToNumber(values[0])) && !IsNaN(ToNumber(values[1]))
  {
    SplitPair(a);
    if CountChar(a, ',') == 1 {
      var i := OnlyComma(a);
      assert OnlyCommaAt(a, i);
    }
  }

  /** What every one-value validator promises about its output's shape:
      at most one diagnostic, the arity message at column 0 for an empty
      argument, otherwise a diagnostic over the trimmed value. */
  predicate SingleShape(k: Key, raw: string, line: nat, start: int, r: seq<Diagnostic>) {
    var a := Argument(k, raw);
    && |r| <= 1
    && (a == [] ==> r == [ArityDiagnostic(k, line, 0)])
    && (a != [] ==> forall d :: d in r ==> d.range == Span(line, ValueColumn(k, start), |Trim(a)|))
  }

  // ---------------------------------------------------------------------
  // The validators.
  // ---------------------------------------------------------------------

  /** `evalMoveTo`: two comma-separated numbers. Every diagnostic it
      produces sits at column 0. */
  function EvalMoveTo(raw: string, line: nat, start: int): (r: seq<Diagnostic>)
    ensures |r| <= 1
    ensures forall d :: d in r ==> d.range == ColumnZero(line) && (d.message.WrongArity? || d.message.NotNumbers?)
    ensures r == [] <==> CoordinatePair(Argument(MoveTo, raw))
    ensures Argument(MoveTo, raw) == [] ==> r == [ArityDiagnostic(MoveTo, line, 0)]
  {
    var a := Argument(MoveTo, raw);
    if a == [] then
      [ArityDiagnostic(MoveTo, line, 0)]
    else
      CoordinatePairSplit(a);
      var values := Split(a, ',');
      if |values| != 2 then
        [ArityDiagnostic(MoveTo, line, |values|)]
      else if IsNaN(ToNumber(values[0])) || IsNaN(ToNumber(values[1])) then
        [Diagnostic(ColumnZero(line), NotNumbers(values[0], values[1]))]
      else
        []
  }

  /** An argument with other than one comma draws the arity message with
      the number of pieces it splits into. */
  lemma MoveToPieces(raw: string, line: nat, start: int)
    ensures var a := Argument(MoveTo, raw);
      a != [] && CountChar(a, ',') != 1 ==> EvalMoveTo(raw, line, start) == [ArityDiagnostic(MoveTo, line, CountChar(a, ',') + 1)]
  {
    SplitPair(Argument(MoveTo, raw));
  }

  /** An argument with its only comma at `i` that is refused is refused
      for its pieces, both quoted. */
  lemma MoveToMessages(raw: string, line: nat, start: int)
    ensures var a := Argument(MoveTo, raw); var r := EvalMoveTo(raw, line, start);
      forall i :: OnlyCommaAt(a, i) && r != [] ==> r[0].message == NotNumbers(a[..i], a[i + 1..])
  {
    SplitPair(Argument(MoveTo, raw));
  }

  /** A MOVETO argument with one comma and a piece that is not a number
      draws exactly the message quoting both pieces. */
  lemma MoveToRefused(raw: string, line: nat, start: int, i: int)
    requires OnlyCommaAt(Argument(MoveTo, raw), i)
    requires var a := Argument(MoveTo, raw); IsNaN(ToNumber(a[..i])) || IsNaN(ToNumber(a[i + 1..]))
    ensures var a := Argument(MoveTo, raw);
      EvalMoveTo(raw, line, start) == [Diagnostic(ColumnZero(line), NotNumbers(a[..i], a[i + 1..]))]
  {
    var a := Argument(MoveTo, raw);
    NotCoordinatePair(a, i);
    var r := EvalMoveTo(raw, line, start);
    assert r != [] && |r| == 1;
    MoveToMessages(raw, line, start);
    assert r[0] in r;
  }

  /** Around its only comma, an argument with a piece that is not a number
      is no coordinate pair. */
  lemma NotCoordinatePair(a: string, i: int)
    requires OnlyCommaAt(a, i) && (IsNaN(ToNumber(a[..i])) || IsNaN(ToNumber(a[i + 1..])))
    ensures !CoordinatePair(a)
  {
    OnlyCommaUnique(a, i);
  }

  /** `evalAtSpeed`: `AUTO` or a number that is not negative. */
  function EvalAtSpeed(raw: string, line: nat, start: int): (r: seq<Diagnostic>)
    ensures NoExclusive(r)
    ensures SingleShape(AtSpeed, raw, line, start, r)
    ensures start >= -1 ==> AllOnLine(r, line)
    ensures var a := Argument(AtSpeed, raw);
      a != [] ==> (r == [] <==> SpeedValue(Trim(a)))
  {
    AutoIsNaN();
    var a := Argument(AtSpeed, raw);
    if a == [] then
      [ArityDiagnostic(AtSpeed, line, 0)]
    else
      var v := Trim(a);
      if v != "AUTO" && IsNaN(ToNumber(v)) then
        [ValueDiagnostic(AtSpeed, line, start, v, NotNumberOrAuto(AtSpeed, v))]
      else if LessThan(ToNumber(v), 0.0) then
        [ValueDiagnostic(AtSpeed, line, start, v, NotPositive(AtSpeed, v))]
      else
        []
  }

  /** Which message ATSPEED gives: "not a number or AUTO" for what is
      neither, and "not positive" exactly for a number below zero. */
  lemma AtSpeedMessages(raw: string, line: nat, start: int)
    ensures var a := Argument(AtSpeed, raw); var v := Trim(a); var r := EvalAtSpeed(raw, line, start);
      && (a != [] ==> (r == [ValueDiagnostic(AtSpeed, line, start, v, NotPositive(AtSpeed, v))]
                       <==> LessThan(ToNumber(v), 0.0)))
      && (a != [] && v != "AUTO" && IsNaN(ToNumber(v)) ==>
            r == [ValueDiagnostic(AtSpeed, line, start, v, NotNumberOrAuto(AtSpeed, v))])
  {
    AutoIsNaN();
  }

  /** `evalWithHdop`: a number between 0 and 1; `AUTO` is refused, with the
      message that names it as allowed. */
  function EvalWithHdop(raw: string, line: nat, start: int): (r: seq<Diagnostic>)
    ensures NoExclusive(r)
    ensures SingleShape(WithHdop, raw, line, start, r)
    ensures start >= -1 ==> AllOnLine(r, line)
    ensures var a := Argument(WithHdop, raw);
      a != [] ==> (r == [] <==> HdopValue(Trim(a)))
  {
    AutoIsNaN();
    var a := Argument(WithHdop, raw);
    if a == [] then
      [ArityDiagnostic(WithHdop, line, 0)]
    else
      var v := Trim(a);
      if IsNaN(ToNumber(v)) then
        [ValueDiagnostic(WithHdop, line, start, v, NotNumberOrAuto(WithHdop, v))]
      else if LessThan(ToNumber(v), 0.0) || GreaterThan(ToNumber(v), 1.0) then
        [ValueDiagnostic(WithHdop, line, start, v, NotBetween(WithHdop, 0, 1, v))]
      else
        []
  }

  /** Which message WITHHDOP gives: "not between 0 and 1" exactly for a
      number outside the range, and "not a number or AUTO" for anything
      else it refuses, `AUTO` included. */
  lemma WithHdopMessages(raw: string, line: nat, start: int)
    ensures var a := Argument(WithHdop, raw); var v := Trim(a); var r := EvalWithHdop(raw, line, start);
      && (a != [] ==> (r == [ValueDiagnostic(WithHdop, line, start, v, NotBetween(WithHdop, 0, 1, v))]
                       <==> OutOfRange(ToNumber(v), 0.0, 1.0)))
      && (a != [] && (v == "AUTO" || IsNaN(ToNumber(v))) ==>
            r == [ValueDiagnostic(WithHdop, line, start, v, NotNumberOrAuto(WithHdop, v))])
  {
    AutoIsNaN();
  }

  /** `evalWithSatellites` and `evalWithAltitude`: digits only. Their second
      check, for a value below zero, can never fire. */
  function EvalDigitsOnly(k: Key, raw: string, line: nat, start: int): (r: seq<Diagnostic>)
    requires k == WithSatellites || k == WithAltitude
    ensures NoExclusive(r)
    ensures SingleShape(k, raw, line, start, r)
    ensures start >= -1 ==> AllOnLine(r, line)
    ensures var a := Argument(k, raw);
      a != [] ==> (r == [] <==> AllDigits(Trim(a)))
    ensures var a := Argument(k, raw);
      a != [] && r != [] ==> r[0].message == NotNumber(k, Trim(a))
    ensures forall d :: d in r ==> !d.message.NotGreaterThan?
  {
    var a := Argument(k, raw);
    if a == [] then
      [ArityDiagnostic(k, line, 0)]
    else
      var v := Trim(a);
      var negative := ValueDiagnostic(k, line, start, v, NotGreaterThan(k, 0, v));
      if !AllDigits(v) then
        [ValueDiagnostic(k, line, start, v, NotNumber(k, v))]
      else
        DigitsAreNumbers(v);
        if LessThan(ToNumber(v), 0.0) then [negative] else []
  }

  /** `evalWithParam`: a quoted, non-empty name and a non-empty value,
      separated by one comma. A bad name is reported over the name, an
      empty value at the character after the comma. */
  function EvalWithParam(raw: string, line: nat, start: int): (r: seq<Diagnostic>)
    ensures |r| <= 2
    ensures NoExclusive(r)
    ensures start >= -1 ==> AllOnLine(r, line)
    ensures Argument(WithParam, raw) == [] ==> r == [ArityDiagnostic(WithParam, line, 0)]
    ensures var a := Argument(WithParam, raw);
      a != [] && CountChar(a, ',') != 1 ==> r == [ArityDiagnostic(WithParam, line, CountChar(a, ',') + 1)]
  {
    var a := Argument(WithParam, raw);
    if a == [] then
      [ArityDiagnostic(WithParam, line, 0)]
    else
      SplitPair(a);
      var values := Split(a, ',');
      if |values| != 2 then
        [ArityDiagnostic(WithParam, line, |values|)]
      else
        ParamPair(values[0], values[1], line, ValueColumn(WithParam, start))
  }

  /** The diagnostics of a WITHPARAM name and value that sit around the
      argument's only comma, the name beginning at column `begin`. */
  function ParamPair(name: string, value: string, line: nat, begin: int): (r: seq<Diagnostic>)
    ensures |r| == (if Quoted(name) then 0 else 1) + (if value == [] then 1 else 0)
    ensures !Quoted(name) ==>
      r[0] == Diagnostic(Span(line, begin, |name|), if name == [] then ParamNameEmpty else ParamNameUnquoted)
    ensures value == [] ==> r[|r| - 1] == Diagnostic(Span(line, begin + |name| + 1, 0), ParamNameEmpty)
    ensures NoExclusive(r)
    ensures begin >= 0 ==> AllOnLine(r, line)
  {
    var first := CheckName(name, line, begin);
    var second := CheckValue(value, line, begin + |name| + 1);
    assert forall i :: 0 <= i < |first + second| ==>
      (first + second)[i] == if i < |first| then first[i] else second[i - |first|];
    first + second
  }

  /** A WITHPARAM argument with its only comma at `i`: a name that is not
      quoted is reported over the name, an empty value at the character
      after the comma, and nothing else. */
  lemma WithParamDiagnostics(raw: string, line: nat, start: int, i: int)
    requires OnlyCommaAt(Argument(WithParam, raw), i)
    ensures var a := Argument(WithParam, raw); var begin := ValueColumn(WithParam, start);
      var r := EvalWithParam(raw, line, start);
      var name := a[..i];
      var value := a[i + 1..];
      && |r| == (if Quoted(name) then 0 else 1) + (if value == [] then 1 else 0)
      && (!Quoted(name) ==>
            r[0] == Diagnostic(Span(line, begin, |name|), if name == [] then ParamNameEmpty else ParamNameUnquoted))
      && (value == [] ==> r[|r| - 1] == Diagnostic(Span(line, begin + |name| + 1, 0), ParamNameEmpty))
  {
    var a := Argument(WithParam, raw);
    SplitPair(a);
  }

  /** The name half of `evalWithParam`: empty, or not wrapped in double
      quotes, is reported over the name. */
  function CheckName(name: string, line: nat, begin: int): (r: seq<Diagnostic>)
    ensures r == [] <==> Quoted(name)
    ensures r != [] ==> r == [Diagnostic(Span(line, begin, |name|), if name == [] then ParamNameEmpty else ParamNameUnquoted)]
  {
    if name == [] then
      [Diagnostic(Span(line, begin, |name|), ParamNameEmpty)]
    else if !StartsWith(name, "\"") || !EndsWith(name, "\"") then
      [Diagnostic(Span(line, begin, |name|), ParamNameUnquoted)]
    else
      []
  }

  /** The value half of `evalWithParam`: only an empty value is refused,
      with an empty range where the value should begin. */
  function CheckValue(value: string, line: nat, begin: int): (r: seq<Diagnostic>)
    ensures r == [] <==> value != []
    ensures r != [] ==> r == [Diagnostic(Span(line, begin, 0), ParamNameEmpty)]
  {
    if value == [] then [Diagnostic(Span(line, begin, |value|), ParamNameEmpty)] else []
  }

  /** `evalWait`: digits only, at least 1. The message says "greater than 1"
      but 1 itself passes. */
  function EvalWait(raw: string, line: nat, start: int): (r: seq<Diagnostic>)
    ensures NoExclusive(r)
    ensures SingleShape(Wait, raw, line, start, r)
    ensures start >= -1 ==> AllOnLine(r, line)
    ensures var a := Argument(Wait, raw);
      a != [] ==> (r == [] <==> WaitValue(Trim(a)))
  {
    var a := Argument(Wait, raw);
    if a == [] then
      [ArityDiagnostic(Wait, line, 0)]
    else
      var v := Trim(a);
      if !AllDigits(v) then
        [ValueDiagnostic(Wait, line, start, v, NotNumber(Wait, v))]
      else
        DigitsAreNumbers(v);
        ValueZeroIffAllZeros(v);
        if LessThan(ToNumber(v), 1.0) then
          [ValueDiagnostic(Wait, line, start, v, NotGreaterThan(Wait, 1, v))]
        else
          []
  }

  /** Which message WAIT gives: "not a number" for anything but digits, and
      "not greater than 1" exactly for digits that are all `0`. */
  lemma WaitMessages(raw: string, line: nat, start: int)
    ensures var a := Argument(Wait, raw); var v := Trim(a); var r := EvalWait(raw, line, start);
      && (a != [] && !AllDigits(v) ==> r == [ValueDiagnostic(Wait, line, start, v, NotNumber(Wait, v))])
      && (a != [] && AllDigits(v) ==>
            (r == [ValueDiagnostic(Wait, line, start, v, NotGreaterThan(Wait, 1, v))]
             <==> forall i :: 0 <= i < |v| ==> v[i] == '0'))
  {
    var a := Argument(Wait, raw);
    if a != [] && AllDigits(Trim(a)) {
      DigitsAreNumbers(Trim(a));
      ValueZeroIffAllZeros(Trim(a));
    }
  }

  /** `evalAtDirection`: `AUTO` or a number of degrees from 0 to 359. */
  function EvalAtDirection(raw: string, line: nat, start: int): (r: seq<Diagnostic>)
    ensures NoExclusive(r)
    ensures SingleShape(AtDirection, raw, line, start, r)
    ensures start >= -1 ==> AllOnLine(r, line)
    ensures var a := Argument(AtDirection, raw);
      a != [] ==> (r == [] <==> DirectionValue(Trim(a)))
  {
    AutoIsNaN();
    var a := Argument(AtDirection, raw);
    if a == [] then
      [ArityDiagnostic(AtDirection, line, 0)]
    else
      var v := Trim(a);
      if v != "AUTO" && IsNaN(ToNumber(v)) then
        [ValueDiagnostic(AtDirection, line, start, v, NotNumberOrAuto(AtDirection, v))]
      else if LessThan(ToNumber(v), 0.0) || GreaterThan(ToNumber(v), 359.0) then
        [ValueDiagnostic(AtDirection, line, start, v, NotBetween(AtDirection, 0, 359, v))]
      else
        []
  }

  /** Which message ATDIRECTION gives: "not a number or AUTO" for what is
      neither, and "not between 0 and 359" exactly for a number outside
      the range. */
  lemma AtDirectionMessages(raw: string, line: nat, start: int)
    ensures var a := Argument(AtDirection, raw); var v := Trim(a); var r := EvalAtDirection(raw, line, start);
      && (a != [] ==> (r == [ValueDiagnostic(AtDirection, line, start, v, NotBetween(AtDirection, 0, 359, v))]
                       <==> OutOfRange(ToNumber(v), 0.0, 359.0)))
      && (a != [] && v != "AUTO" && IsNaN(ToNumber(v)) ==>
            r == [ValueDiagnostic(AtDirection, line, start, v, NotNumberOrAuto(AtDirection, v))])
  {
    AutoIsNaN();
  }

  /** The dispatch of the scanning loop: the validator of key `k`. The
      `AUTO` key has none. */
  function Validate(k: Key, raw: string, line: nat, start: int): (r: seq<Diagnostic>)
    ensures |r| <= Arity(k)
    ensures k == Auto ==> r == []
    ensures start >= -1 ==> AllOnLine(r, line)
  {
    match k
    case Auto => []
    case MoveTo => EvalMoveTo(raw, line, start)
    case AtSpeed => EvalAtSpeed(raw, line, start)
    case WithHdop => EvalWithHdop(raw, line, start)
    case WithSatellites => EvalDigitsOnly(WithSatellites, raw, line, start)
    case WithAltitude => EvalDigitsOnly(WithAltitude, raw, line, start)
    case WithParam => EvalWithParam(raw, line, start)
    case Wait => EvalWait(raw, line, start)
    case AtDirection => EvalAtDirection(raw, line, start)
  }

  /** Every validator answers an empty argument with the arity message at
      column 0, and none of them reports a mix of MOVETO and WAIT. */
  lemma ValidateMessages(k: Key, raw: string, line: nat, start: int)
    ensures var r := Validate(k, raw, line, start);
      && (k != Auto && Argument(k, raw) == [] ==> r == [ArityDiagnostic(k, line, 0)])
      && NoExclusive(r)
  {
  }

  // ---------------------------------------------------------------------
  // Facts about the single comma of a two-value argument.
  // ---------------------------------------------------------------------

  /** The index of the only comma of a string holding exactly one. */
  function OnlyComma(a: string): (i: int)
    requires CountChar(a, ',') == 1
    ensures OnlyCommaAt(a, i)
  {
    OnlyCharAt(a, ',')
  }

  /** The index of the only `c` in a string that holds exactly one. */
  function OnlyCharAt(s: string, c: char): (i: int)
    requires CountChar(s, c) == 1
    ensures 0 <= i < |s| && s[i] == c && c !in s[..i] && c !in s[i + 1..]
    decreases |s|
  {
    if s[0] == c then
      CountCharZero(s[1..], c);
      0
    else
      var j := OnlyCharAt(s[1..], c);
      assert s[1..][..j] == s[1..j + 1];
      assert s[..j + 1] == [s[0]] + s[1..j + 1];
      assert s[j + 2..] == s[1..][j + 1..];
      j + 1
  }

  lemma {:induction false} CountCharZero(s: string, c: char)
    requires CountChar(s, c) == 0
    ensures c !in s
  {
    if s != [] {
      CountCharZero(s[1..], c);
      assert s == [s[0]] + s[1..];
    }
  }

  /** What `split(',')` makes of an argument: two pieces around its only
      comma when it has exactly one, and otherwise no only comma at all. */
  lemma SplitPair(a: string)
    ensures CountChar(a, ',') != 1 ==> forall i :: !OnlyCommaAt(a, i)
    ensures CountChar(a, ',') == 1 ==>
      var i := OnlyComma(a);
      && Split(a, ',') == [a[..i], a[i + 1..]]
      && forall j :: OnlyCommaAt(a, j) ==> j == i
  {
    if CountChar(a, ',') == 1 {
      var i := OnlyComma(a);
      SplitAtOnlySeparator(a, ',', i);
      OnlyCommaUnique(a, i);
    } else {
      NoOnlyComma(a);
    }
  }

  /** A string with its only comma at `i` has no other. */
  lemma OnlyCommaUnique(a: string, i: int)
    requires OnlyCommaAt(a, i)
    ensures forall j :: OnlyCommaAt(a, j) ==> j == i
  {
    forall j | OnlyCommaAt(a, j) ensures j == i {
      assert a[j] in a[..i] <==> j < i;
      assert a[j] in a[i + 1..] <==> j > i;
    }
  }

  /** A string whose comma count is not one has no only comma. */
  lemma NoOnlyComma(a: string)
    requires CountChar(a, ',') != 1
    ensures forall i :: !OnlyCommaAt(a, i)
  {
    forall i | OnlyCommaAt(a, i) ensures false {
      CountCharAbsent(a[..i], ',');
      CountCharAbsent(a[i + 1..], ',');
      assert a == a[..i] + a[i..];
      assert a[i..][1..] == a[i + 1..];
      CountCharAppend(a[..i], a[i..], ',');
    }
  }
}
