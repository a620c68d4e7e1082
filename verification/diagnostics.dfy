/**
 The diagnostics the validation engine publishes: a range on one line of the
 document and a message. Every diagnostic of the server has the error
 severity, so the severity is not carried. Messages are a datatype of their
 kinds with the text they quote; `Text` renders the exact wording.
 */
module Diagnostics {
  import opened Registry
  import opened JsNumber

  /** A zero-based line and character offset. Characters are integers: the
      scanner may hand a validator the start offset -1. */
  datatype Position = Position(line: int, character: int)

  datatype Range = Range(start: Position, end: Position)

  datatype Message =
    | Exclusive                                               // MOVETO together with WAIT
    | WrongArity(key: Key, expected: nat, count: nat)      // wrong number of values
    | NotNumbers(first: string, second: string)               // MOVETO coordinates
    | NotNumberOrAuto(key: Key, received: string)
    | NotPositive(key: Key, received: string)
    | NotBetween(key: Key, low: nat, high: nat, received: string)
    | NotNumber(key: Key, received: string)
    | NotGreaterThan(key: Key, bound: nat, received: string)
    | ParamNameEmpty                                          // also used for an empty value
    | ParamNameUnquoted

  datatype Diagnostic = Diagnostic(range: Range, message: Message)

  /** The wording of each message, as the server interpolates it. */
  function Text(m: Message): string {
    match m
    case Exclusive => "MOVETO and WAIT cannot be in the same line"
    case WrongArity(k, expected, received) =>
      Name(k) + " should have " + (if expected == 1 then "1 value" else NatToString(expected) + " values")
      + " (received " + NatToString(received) + ")"
    case NotNumbers(first, second) =>
      "MOVETO values should be numbers (received `" + first + "` and `" + second + "`)"
    case NotNumberOrAuto(k, v) => Name(k) + " value should be a number or AUTO (received `" + v + "`)"
    case NotPositive(k, v) => Name(k) + " value should be a positive number (received `" + v + "`)"
    case NotBetween(k, low, high, v) =>
      Name(k) + " value should be a between " + NatToString(low) + " and " + NatToString(high)
      + " (received `" + v + "`)"
    case NotNumber(k, v) => Name(k) + " value should be a number (received `" + v + "`)"
    case NotGreaterThan(k, bound, v) =>
      Name(k) + " value should be greater than " + NatToString(bound) + " (received `" + v + "`)"
    case ParamNameEmpty => "WITHPARAM parameter name should not be empty"
    case ParamNameUnquoted => "WITHPARAM parameter name should start and end with \""
  }

  /** The empty range at the first character of `line`. */
  function ColumnZero(line: nat): Range {
    Range(Position(line, 0), Position(line, 0))
  }

  /** The range of `width` characters from `begin` on `line`. */
  function Span(line: nat, begin: int, width: nat): Range {
    Range(Position(line, begin), Position(line, begin + width))
  }

  /** `d` lies on line `line` and its range is well ordered and not before
      the first character. */
  predicate OnLine(d: Diagnostic, line: nat) {
    && d.range.start.line == line && d.range.end.line == line
    && 0 <= d.range.start.character <= d.range.end.character
  }

  predicate AllOnLine(ds: seq<Diagnostic>, line: nat) {
    forall i :: 0 <= i < |ds| ==> OnLine(ds[i], line)
  }

  /** No diagnostic in `ds` is the MOVETO-and-WAIT one. */
  predicate NoExclusive(ds: seq<Diagnostic>) {
    forall i :: 0 <= i < |ds| ==> !ds[i].message.Exclusive?
  }
}
