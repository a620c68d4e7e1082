/**
 The hover handler: the document is split into lines on `\r?\n`, the word
 under the cursor is the first run of `\w` characters whose span, end
 included, holds the cursor column, and the hover shows that word's
 registry detail. The lookup is a property read on a plain object, so the
 names an object inherits (`toString`, `constructor`, ...) are found too and
 show an empty text.
 */
module Hover {
  import opened Wrappers
  import opened JsString
  import opened Registry

  /** A character of the regular expression class `\w`. */
  predicate IsWordChar(c: char) {
    ('a' <= c <= 'z') || ('A' <= c <= 'Z') || ('0' <= c <= '9') || c == '_'
  }

  /** `line[s..e]` is a maximal run of word characters. */
  predicate IsRun(line: string, s: int, e: int) {
    && 0 <= s < e <= |line|
    && (forall j :: s <= j < e ==> IsWordChar(line[j]))
    && (s == 0 || !IsWordChar(line[s - 1]))
    && (e == |line| || !IsWordChar(line[e]))
  }

  /** Index `i` does not fall strictly inside a run. */
  predicate NotInside(line: string, i: nat) {
    !(0 < i < |line| && IsWordChar(line[i - 1]) && IsWordChar(line[i]))
  }

  /** The end of the run of word characters starting at `i`. */
  function RunEnd(line: string, i: nat): (r: nat)
    requires i <= |line|
    ensures i <= r <= |line|
    ensures forall j :: i <= j < r ==> IsWordChar(line[j])
    ensures r == |line| || !IsWordChar(line[r])
    decreases |line| - i
  {
    if i == |line| || !IsWordChar(line[i]) then i else RunEnd(line, i + 1)
  }

  /** Two runs that start together end together. */
  lemma RunUnique(line: string, s: int, e: int, e': int)
    requires IsRun(line, s, e) && IsRun(line, s, e')
    ensures e == e'
  {
  }

  /** The `exec` loop from index `i` on: the first run at or after `i` whose
      span `[start, end]`, end included, holds the column `ch`. */
  function FirstHit(line: string, i: nat, ch: nat): (r: Option<(int, int)>)
    requires i <= |line| && NotInside(line, i)
    ensures r.Some? ==> i <= r.value.0 && IsRun(line, r.value.0, r.value.1) && r.value.0 <= ch <= r.value.1
    ensures forall s, e :: i <= s && IsRun(line, s, e) && s <= ch <= e ==> r.Some? && r.value.0 <= s
    decreases |line| - i
  {
    if i == |line| then None
    else if !IsWordChar(line[i]) then FirstHit(line, i + 1, ch)
    else
      var e := RunEnd(line, i);
      assert IsRun(line, i, e);
      assert forall s, e' :: i < s && IsRun(line, s, e') ==> s >= e;
      forall e' | IsRun(line, i, e') ensures e' == e {
        RunUnique(line, i, e, e');
      }
      if i <= ch <= e then Some((i, e)) else FirstHit(line, e, ch)
  }

  /** The word under column `ch` of `line`, or the empty string. */
  function WordAt(line: string, ch: nat): (w: string)
    ensures w == [] <==> forall s, e :: IsRun(line, s, e) ==> !(s <= ch <= e)
    ensures w != [] ==> exists s, e :: IsRun(line, s, e) && s <= ch <= e && line[s..e] == w
  {
    match FirstHit(line, 0, ch)
    case None => []
    case Some(run) => line[run.0..run.1]
  }

  /** Runs are separated by a non-word character, so at most one run holds
      a column: the word under the cursor is that run. */
  lemma WordAtRun(line: string, s: int, e: int, ch: nat)
    requires IsRun(line, s, e) && s <= ch <= e
    ensures WordAt(line, ch) == line[s..e]
  {
    var hit := FirstHit(line, 0, ch);
    var s', e' := hit.value.0, hit.value.1;
    if s' == s {
      RunUnique(line, s, e, e');
    }
  }

  /** `line` without one trailing carriage return: the one a `\r\n` break
      takes with it. */
  function DropReturn(line: string): (r: string)
    ensures line != [] && line[|line| - 1] == '\r' ==> line == r + ['\r']
    ensures !(line != [] && line[|line| - 1] == '\r') ==> r == line
  {
    if line != [] && line[|line| - 1] == '\r' then line[..|line| - 1] else line
  }

  /** `text.split(/\r?\n/)`: the pieces between line breaks, a carriage
      return just before a line feed being part of the break. */
  function SplitLines(text: string): (r: seq<string>)
    ensures |r| == CountChar(text, '\n') + 1
    ensures forall i :: 0 <= i < |r| ==> '\n' !in r[i]
  {
    var pieces := Split(text, '\n');
    seq(|pieces|, i requires 0 <= i < |pieces| =>
      if i < |pieces| - 1 then DropReturn(pieces[i]) else pieces[i])
  }

  /** `text.replace(/\r\n/g, '\n')`: every carriage return that stands just
      before a line feed removed. */
  function CrlfToLf(text: string): string
    decreases |text|
  {
    if text == [] then []
    else if |text| >= 2 && text[0] == '\r' && text[1] == '\n' then ['\n'] + CrlfToLf(text[2..])
    else [text[0]] + CrlfToLf(text[1..])
  }

  /** Splitting on `\r?\n` is splitting on `\n` once every `\r\n` has become
      `\n`: a carriage return is dropped exactly when a line feed follows
      it, and every other character is kept. */
  lemma {:induction false} SplitLinesNormalize(text: string)
    ensures SplitLines(text) == Split(CrlfToLf(text), '\n')
    decreases |text|
  {
    var i := IndexOf(text, "\n");
    assert "\n" == ['\n'];
    if i < 0 {
      assert '\n' !in text by {
        forall j | 0 <= j < |text| ensures text[j] != '\n' { OccursAtChar(text, '\n', j); }
      }
      WithoutLineFeed(text);
    } else {
      OccursAtChar(text, '\n', i);
      var a, b := text[..i], text[i + 1..];
      assert '\n' !in a by {
        forall j | 0 <= j < i ensures text[j] != '\n' { OccursAtChar(text, '\n', j); }
      }
      assert text == a + ['\n'] + b;
      SplitLinesStep(a, b);
      BreakNormalized(a, b);
      SplitLinesNormalize(b);
      SplitAfter(DropReturn(a), CrlfToLf(b), '\n');
    }
  }

  /** A text without line feeds is one line, left as it is. */
  lemma WithoutLineFeed(text: string)
    requires '\n' !in text
    ensures SplitLines(text) == [text] && Split(CrlfToLf(text), '\n') == [text]
  {
    NotContainsChar(text, '\n');
    assert Split(text, '\n') == [text];
    NoBreakUnchanged(text);
  }

  /** A text without line feeds is its own `CrlfToLf`. */
  lemma {:induction false} NoBreakUnchanged(text: string)
    requires '\n' !in text
    ensures CrlfToLf(text) == text
    decreases |text|
  {
    if text != [] {
      assert '\n' !in text[1..];
      NoBreakUnchanged(text[1..]);
      assert text == [text[0]] + text[1..];
    }
  }

  /** `CrlfToLf` of a line, a line feed and the rest: the line loses a
      trailing carriage return and the rest is converted on its own. */
  lemma {:induction false} BreakNormalized(a: string, b: string)
    requires '\n' !in a
    ensures CrlfToLf(a + ['\n'] + b) == DropReturn(a) + ['\n'] + CrlfToLf(b)
    decreases |a|
  {
    var s := a + ['\n'] + b;
    if a == [] {
      assert s == ['\n'] + b && s[1..] == b;
    } else if a == ['\r'] {
      assert s[2..] == b;
      assert DropReturn(a) == [];
    } else {
      var tail := a[1..];
      var rest := tail + ['\n'] + b;
      assert s == [a[0]] + rest;
      assert a[0] == '\r' ==> rest[0] != '\n' by {
        if a[0] == '\r' { assert |a| >= 2 && rest[0] == a[1]; }
      }
      ConsNormalized(a[0], rest);
      assert '\n' !in tail;
      BreakNormalized(tail, b);
      DropReturnCons(a);
      assert [a[0]] + (DropReturn(tail) + ['\n'] + CrlfToLf(b)) == ([a[0]] + DropReturn(tail)) + ['\n'] + CrlfToLf(b);
    }
  }

  lemma ConsNormalized(c: char, rest: string)
    requires rest != [] && (c == '\r' ==> rest[0] != '\n')
    ensures CrlfToLf([c] + rest) == [c] + CrlfToLf(rest)
  {
    assert ([c] + rest)[1..] == rest;
  }

  lemma DropReturnCons(a: string)
    requires a != [] && a != ['\r']
    ensures DropReturn(a) == [a[0]] + DropReturn(a[1..])
  {
    if a[|a| - 1] == '\r' {
      assert a[1..][..|a| - 2] == a[1..|a| - 1];
    }
  }

  /** The lines of `a + "\n" + b`: `a` without a trailing carriage return,
      then the lines of `b`. */
  lemma SplitLinesStep(a: string, b: string)
    requires '\n' !in a
    ensures SplitLines(a + ['\n'] + b) == [DropReturn(a)] + SplitLines(b)
  {
    var text := a + ['\n'] + b;
    SplitAfter(a, b, '\n');
    var pieces := Split(text, '\n');
    var rest := Split(b, '\n');
    assert pieces == [a] + rest;
    var r := SplitLines(text);
    var t := [DropReturn(a)] + SplitLines(b);
    assert |r| == |t|;
    forall j | 0 <= j < |r| ensures r[j] == t[j] {
      if j > 0 {
        assert pieces[j] == rest[j - 1];
      }
    }
  }

  /** Splitting `h + [sep] + t`, `h` free of `sep`, gives `h` and then the
      pieces of `t`. */
  lemma SplitAfter(h: string, t: string, sep: char)
    requires sep !in h
    ensures Split(h + [sep] + t, sep) == [h] + Split(t, sep)
  {
    var s := h + [sep] + t;
    forall j | 0 <= j < |h| ensures !OccursAt(s, [sep], j) {
      assert s[j] == h[j];
      OccursAtChar(s, sep, j);
    }
    OccursAtChar(s, sep, |h|);
    assert IndexOf(s, [sep]) == |h|;
    assert s[..|h|] == h && s[|h| + 1..] == t;
  }

  /** Without carriage returns, breaking into lines is splitting on `\n`. */
  lemma SplitLinesWithoutReturns(text: string)
    requires '\r' !in text
    ensures SplitLines(text) == Split(text, '\n')
  {
    var pieces := Split(text, '\n');
    forall i | 0 <= i < |pieces| ensures DropReturn(pieces[i]) == pieces[i] {
      if pieces[i] != [] {
        NoReturnInPiece(text, i);
      }
    }
  }

  /** No piece of a split holds a character the text does not. */
  lemma NoReturnInPiece(text: string, i: int)
    requires '\r' !in text && 0 <= i < |Split(text, '\n')|
    ensures '\r' !in Split(text, '\n')[i]
  {
    var pieces := Split(text, '\n');
    JoinSplit(text, '\n');
    JoinHolds(pieces, '\n', i);
  }

  /** Every piece is part of what the pieces join into. */
  lemma {:induction false} JoinHolds(pieces: seq<string>, sep: char, i: int)
    requires 0 <= i < |pieces|
    ensures forall c :: c in pieces[i] ==> c in Join(pieces, sep)
  {
    if |pieces| > 1 {
      var rest := Join(pieces[1..], sep);
      if i > 0 {
        JoinHolds(pieces[1..], sep, i - 1);
      }
      assert Join(pieces, sep) == pieces[0] + [sep] + rest;
    }
  }

  /** The names a plain object inherits from `Object.prototype`. */
  const PrototypeNames: seq<string> := [
    "constructor", "__defineGetter__", "__defineSetter__", "hasOwnProperty",
    "__lookupGetter__", "__lookupSetter__", "isPrototypeOf", "propertyIsEnumerable",
    "toString", "valueOf", "__proto__", "toLocaleString"]

  /** `completions[word]`, shown as `detail || ''`: the detail of the key
      whose label is the word; for any other word, the empty text when it is
      a name a plain object inherits and no hover otherwise. */
  function Content(word: string): (r: Option<string>)
    ensures forall k :: word == Name(k) ==> r == Some(Detail(k))
    ensures (forall k :: word != Name(k)) ==> (r == Some("") <==> word in PrototypeNames)
    ensures (forall k :: word != Name(k)) ==> (r.None? <==> word !in PrototypeNames)
  {
    KeysInDeclarationOrder();
    match Lookup(word)
    case Some(k) =>
      assert forall k' :: word == Name(k') ==> k' == k by {
        forall k' | word == Name(k') ensures k' == k { NamesDistinct(k, k'); }
      }
      Some(Detail(k))
    case None =>
      if word in PrototypeNames then Some("") else None
  }

  /** `lines[line]` of the document, or the text `undefined` (what a
      regular expression makes of a missing line) past the last line. A
      missing document reads as the empty text. */
  function LineAt(doc: Option<string>, n: nat): (line: string)
    ensures n < CountChar(doc.GetOr(""), '\n') + 1 ==> '\n' !in line
    ensures n > CountChar(doc.GetOr(""), '\n') ==> line == "undefined"
    ensures var lines := Split(CrlfToLf(doc.GetOr("")), '\n');
      n < |lines| ==> line == lines[n]
  {
    var lines := SplitLines(doc.GetOr(""));
    SplitLinesNormalize(doc.GetOr(""));
    if n < |lines| then lines[n] else "undefined"
  }

  /** The hover at line `n`, column `ch`: `Some(text)` for a hover showing
      `text`, `None` for no hover. */
  function HoverAt(doc: Option<string>, n: nat, ch: nat): (r: Option<string>)
    ensures var word := WordAt(LineAt(doc, n), ch);
      && (forall k :: word == Name(k) ==> r == Some(Detail(k)))
      && ((forall k :: word != Name(k)) ==> (r.Some? <==> word in PrototypeNames))
  {
    Content(WordAt(LineAt(doc, n), ch))
  }

  /** Hovering over a key's label, anywhere from its first character to just
      past its last, shows the key's detail. */
  lemma HoverOnLabel(doc: Option<string>, n: nat, ch: nat, k: Key, s: int)
    requires IsRun(LineAt(doc, n), s, s + |Name(k)|)
    requires LineAt(doc, n)[s..s + |Name(k)|] == Name(k)
    requires s <= ch <= s + |Name(k)|
    ensures HoverAt(doc, n, ch) == Some(Detail(k))
  {
    LabelContent(LineAt(doc, n), ch, k, s);
  }

  /** The hover content over a run that spells a key's label is the key's
      detail. */
  lemma LabelContent(line: string, ch: nat, k: Key, s: int)
    requires IsRun(line, s, s + |Name(k)|) && line[s..s + |Name(k)|] == Name(k)
    requires s <= ch <= s + |Name(k)|
    ensures Content(WordAt(line, ch)) == Some(Detail(k))
  {
    WordAtRun(line, s, s + |Name(k)|, ch);
    assert WordAt(line, ch) == Name(k);
    LabelDetail(k);
  }

  lemma LabelDetail(k: Key)
    ensures Content(Name(k)) == Some(Detail(k))
  {
  }

  /** Past the last line the server scans the text `undefined`, which is
      neither a label nor an inherited name: there is no hover. */
  lemma HoverPastLastLine(doc: Option<string>, n: nat, ch: nat)
    requires n > CountChar(doc.GetOr(""), '\n')
    ensures HoverAt(doc, n, ch).None?
  {
    var line := LineAt(doc, n);
    assert line == "undefined";
    assert IsRun(line, 0, 9);
    forall s, e | IsRun(line, s, e) ensures s == 0 && e == 9 {
      RunUnique(line, 0, 9, e);
    }
    var word := WordAt(line, ch);
    if ch <= 9 {
      WordAtRun(line, 0, 9, ch);
    }
    assert word == [] || word == "undefined";
    NoHoverFor(word);
  }

  /** An empty word and the word `undefined` show nothing. */
  lemma NoHoverFor(word: string)
    requires word == [] || word == "undefined"
    ensures Content(word).None?
  {
    assert forall k :: word != Name(k);
    assert word !in PrototypeNames;
  }

  /** Without a document every line is empty or missing: there is no hover. */
  lemma HoverWithoutDocument(n: nat, ch: nat)
    ensures HoverAt(None, n, ch).None?
  {
    if n == 0 {
      var line := LineAt(None, 0);
      assert Split("", '\n') == [""];
      assert line == "";
      NoHoverFor(WordAt(line, ch));
    } else {
      HoverPastLastLine(None, n, ch);
    }
  }
}
