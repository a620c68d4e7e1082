/**
 `validateTextDocument` without the publishing step: the document is split
 on `\n`, empty lines and `#` comments are skipped, a line holding both
 `MOVETO` and `WAIT` gets one diagnostic over the whole line, and the calls
 the scanner finds are handed to their validators in scan order.
 */
module Validation {
  import opened JsString
  import opened Registry
  import opened Diagnostics
  import opened Validators
  import opened Scanner

  /** An empty line or a comment: the server does not look at it. */
  predicate Skipped(line: string) {
    line == [] || StartsWith(line, "#")
  }

  /** The diagnostic over all of line `n` for a line that mixes MOVETO and
      WAIT. */
  function ExclusiveDiagnostic(line: string, n: nat): Diagnostic {
    Diagnostic(Range(Position(n, 0), Position(n, |line|)), Exclusive)
  }

  /** Every call was scanned at an offset of -1 or more. */
  predicate Scanned(calls: seq<Call>) {
    forall i :: 0 <= i < |calls| ==> calls[i].start >= -1
  }

  /** The validators' diagnostics for `calls`, one call after another. */
  function Report(calls: seq<Call>, n: nat): (r: seq<Diagnostic>)
    ensures |r| <= 2 * |calls|
    ensures NoExclusive(r)
    ensures Scanned(calls) ==> AllOnLine(r, n)
  {
    if calls == [] then []
    else
      var c := calls[0];
      var here := Validate(c.key, c.text, n, c.start);
      ValidateMessages(c.key, c.text, n, c.start);
      var rest := Report(calls[1..], n);
      assert Scanned(calls) ==> Scanned(calls[1..]);
      here + rest
  }

  /** The diagnostics of line `n`: none for a skipped line; otherwise the
      MOVETO-and-WAIT diagnostic when both labels occur, then the
      validators' diagnostics. All of them lie on line `n`. */
  function ValidateLine(line: string, n: nat): (r: seq<Diagnostic>)
    ensures Skipped(line) ==> r == []
    ensures AllOnLine(r, n)
  {
    if Skipped(line) then []
    else Mixed(line, n) + Report(Calls(line), n)
  }

  /** The MOVETO-and-WAIT check of a line that is not skipped. */
  function Mixed(line: string, n: nat): (r: seq<Diagnostic>)
    ensures AllOnLine(r, n)
    ensures r != [] <==> Contains(line, "MOVETO") && Contains(line, "WAIT")
    ensures r != [] ==> r == [ExclusiveDiagnostic(line, n)]
  {
    if Contains(line, "MOVETO") && Contains(line, "WAIT") then [ExclusiveDiagnostic(line, n)] else []
  }

  /** A line opens with the MOVETO-and-WAIT diagnostic exactly when it is
      looked at and holds both labels. */
  lemma ExclusiveFirst(line: string, n: nat)
    ensures var r := ValidateLine(line, n);
      (|r| > 0 && r[0] == ExclusiveDiagnostic(line, n))
      <==> !Skipped(line) && Contains(line, "MOVETO") && Contains(line, "WAIT")
  {
    if !Skipped(line) {
      var head := Mixed(line, n);
      var rest := Report(Calls(line), n);
      assert ValidateLine(line, n) == head + rest;
      if head == [] && |rest| > 0 {
        assert (head + rest)[0] == rest[0];
      }
    }
  }

  /** The MOVETO-and-WAIT diagnostic never comes from the validators: it
      can only open the line's diagnostics. */
  lemma ExclusiveOnlyFirst(line: string, n: nat)
    ensures var r := ValidateLine(line, n);
      forall i :: 0 < i < |r| ==> !r[i].message.Exclusive?
  {
    if !Skipped(line) {
      var head := Mixed(line, n);
      var rest := Report(Calls(line), n);
      assert ValidateLine(line, n) == head + rest;
      ExclusiveAtMostFirst(head, rest);
    }
  }

  lemma ExclusiveAtMostFirst(head: seq<Diagnostic>, rest: seq<Diagnostic>)
    requires |head| <= 1 && NoExclusive(rest)
    ensures forall i :: 0 < i < |head + rest| ==> !(head + rest)[i].message.Exclusive?
  {
    forall i | 0 < i < |head + rest| ensures !(head + rest)[i].message.Exclusive? {
      assert (head + rest)[i] == rest[i - |head|];
    }
  }

  /** A line in which no label occurs draws no diagnostic. */
  lemma LineWithoutLabels(line: string, n: nat)
    requires forall k :: k != Auto ==> !Contains(line, Name(k))
    ensures ValidateLine(line, n) == []
  {
    NoLabelsNoCalls(0, line);
    assert !Contains(line, Name(MoveTo));
  }

  /** The diagnostics of lines `i` onwards, line after line. */
  function LinesFrom(lines: seq<string>, i: nat): (r: seq<Diagnostic>)
    requires i <= |lines|
    ensures forall d :: d in r ==> i <= d.range.start.line < |lines| && OnLine(d, d.range.start.line)
    decreases |lines| - i
  {
    if i == |lines| then []
    else
      var here := ValidateLine(lines[i], i);
      assert forall d :: d in here ==> OnLine(d, i);
      here + LinesFrom(lines, i + 1)
  }

  /** `validateTextDocument`: the diagnostics of every line of `text`. */
  function ValidateDocument(text: string): seq<Diagnostic> {
    LinesFrom(Split(text, '\n'), 0)
  }

  /** The diagnostics in `ds` that lie on line `j`, in order. */
  function OnLineNo(ds: seq<Diagnostic>, j: int): seq<Diagnostic> {
    if ds == [] then []
    else (if ds[0].range.start.line == j then [ds[0]] else []) + OnLineNo(ds[1..], j)
  }

  lemma {:induction false} OnLineNoAppend(a: seq<Diagnostic>, b: seq<Diagnostic>, j: int)
    ensures OnLineNo(a + b, j) == OnLineNo(a, j) + OnLineNo(b, j)
  {
    if a != [] {
      assert (a + b)[0] == a[0] && (a + b)[1..] == a[1..] + b;
      OnLineNoAppend(a[1..], b, j);
    } else {
      assert a + b == b;
    }
  }

  /** Picking line `j` out of diagnostics that all lie on line `n` keeps all
      of them when `j` is `n` and none otherwise. */
  lemma {:induction false} OnLineNoSingle(ds: seq<Diagnostic>, n: nat, j: int)
    requires AllOnLine(ds, n)
    ensures OnLineNo(ds, j) == if j == n then ds else []
  {
    if ds != [] {
      assert AllOnLine(ds[1..], n) by {
        forall i | 0 <= i < |ds[1..]| ensures OnLine(ds[1..][i], n) { assert ds[1..][i] == ds[i + 1]; }
      }
      OnLineNoSingle(ds[1..], n, j);
      assert ds == [ds[0]] + ds[1..];
    }
  }

  /** Line by line, the document's diagnostics are those of the line alone:
      what `validateTextDocument` reports on line `j` depends on line `j`
      only. */
  lemma {:induction false} LinesFromOnLine(lines: seq<string>, i: nat, j: nat)
    requires i <= j < |lines|
    ensures OnLineNo(LinesFrom(lines, i), j) == ValidateLine(lines[j], j)
    decreases |lines| - i
  {
    var here := ValidateLine(lines[i], i);
    OnLineNoAppend(here, LinesFrom(lines, i + 1), j);
    OnLineNoSingle(here, i, j);
    if j == i {
      if i + 1 < |lines| {
        LinesBelowNotOn(lines, i + 1, j);
      } else {
        assert LinesFrom(lines, i + 1) == [];
      }
    } else {
      LinesFromOnLine(lines, i + 1, j);
    }
  }

  /** Lines after `j` contribute nothing to line `j`. */
  lemma {:induction false} LinesBelowNotOn(lines: seq<string>, i: nat, j: int)
    requires j < i <= |lines|
    ensures OnLineNo(LinesFrom(lines, i), j) == []
    decreases |lines| - i
  {
    if i < |lines| {
      var here := ValidateLine(lines[i], i);
      OnLineNoAppend(here, LinesFrom(lines, i + 1), j);
      OnLineNoSingle(here, i, j);
      LinesBelowNotOn(lines, i + 1, j);
    }
  }

  /** The document's diagnostics lie on its lines, and the ones on line `j`
      are exactly what the validation of that line alone gives. */
  lemma DocumentByLine(text: string, j: nat)
    ensures var lines := Split(text, '\n');
      && (forall d :: d in ValidateDocument(text) ==> 0 <= d.range.start.line <= CountChar(text, '\n'))
      && (j < |lines| ==> OnLineNo(ValidateDocument(text), j) == ValidateLine(lines[j], j))
  {
    var lines := Split(text, '\n');
    if j < |lines| {
      LinesFromOnLine(lines, 0, j);
    }
  }

  /** A document of empty lines and comments draws no diagnostic. */
  lemma {:induction false} OnlyCommentsFrom(lines: seq<string>, i: nat)
    requires i <= |lines|
    requires forall k :: i <= k < |lines| ==> Skipped(lines[k])
    ensures LinesFrom(lines, i) == []
    decreases |lines| - i
  {
    if i < |lines| {
      assert ValidateLine(lines[i], i) == [];
      OnlyCommentsFrom(lines, i + 1);
    }
  }
}
