/**
 The JavaScript string operations the validation engine relies on, over
 `seq<char>`: `trim`, `indexOf`, `includes`, `startsWith`/`endsWith`,
 `replace` with a string pattern, `split` on one character, and the number
 of matches of a global regular expression whose pattern is a literal word.
 */
module JsString {

  /** White space as String.prototype.trim and Number() see it: the
      WhiteSpace and LineTerminator productions of ECMAScript (section 12.2
      and 12.3 of ECMA-262), with every Zs space separator written out. */
  predicate IsWhite(c: char) {
    || c == '\U{0009}' || c == '\U{000A}' || c == '\U{000B}' || c == '\U{000C}'
    || c == '\U{000D}' || c == ' ' || c == '\U{00A0}' || c == '\U{1680}'
    || ('\U{2000}' <= c <= '\U{200A}')
    || c == '\U{2028}' || c == '\U{2029}' || c == '\U{202F}' || c == '\U{205F}'
    || c == '\U{3000}' || c == '\U{FEFF}'
  }

  predicate AllWhite(s: string) {
    forall i :: 0 <= i < |s| ==> IsWhite(s[i])
  }

  /** Neither end of `s` is white space. */
  predicate Trimmed(s: string) {
    s == [] || (!IsWhite(s[0]) && !IsWhite(s[|s| - 1]))
  }

  /** `s.trim()`: `s` without its leading and trailing white space. */
  function Trim(s: string): (r: string)
    ensures Trimmed(r) && |r| <= |s|
    decreases |s|
  {
    if s != [] && IsWhite(s[0]) then Trim(s[1..])
    else if s != [] && IsWhite(s[|s| - 1]) then Trim(s[..|s| - 1])
    else s
  }

  /** The trimmed string is the part of `s` left once the white space at
      either end is cut off: `k` characters of it go before. */
  lemma {:induction false} TrimOffset(s: string) returns (k: nat)
    ensures TrimmedAt(s, Trim(s), k)
    decreases |s|
  {
    if s != [] && IsWhite(s[0]) {
      var j := TrimOffset(s[1..]);
      WhiteBefore(s, Trim(s), j);
      k := j + 1;
    } else if s != [] && IsWhite(s[|s| - 1]) {
      k := TrimOffset(s[..|s| - 1]);
      WhiteAfter(s, Trim(s), k);
    } else {
      k := 0;
      assert s[..0] == [] && s[|s|..] == [];
    }
  }

  lemma WhiteBefore(s: string, r: string, j: nat)
    requires s != [] && IsWhite(s[0]) && TrimmedAt(s[1..], r, j)
    ensures TrimmedAt(s, r, j + 1)
  {
    assert s[..j + 1] == [s[0]] + s[1..][..j];
    AllWhiteConcat([s[0]], s[1..][..j]);
    assert s[j + 1..j + 1 + |r|] == s[1..][j..j + |r|];
    assert s[j + 1 + |r|..] == s[1..][j + |r|..];
  }

  lemma WhiteAfter(s: string, r: string, k: nat)
    requires s != [] && IsWhite(s[|s| - 1]) && TrimmedAt(s[..|s| - 1], r, k)
    ensures TrimmedAt(s, r, k)
  {
    var t := s[..|s| - 1];
    assert s[..k] == t[..k];
    assert s[k..k + |r|] == t[k..k + |r|];
    assert s[k + |r|..] == t[k + |r|..] + [s[|s| - 1]];
    AllWhiteConcat(t[k + |r|..], [s[|s| - 1]]);
  }

  /** `r` is `s` from index `k` on, with only white space cut at either end. */
  predicate TrimmedAt(s: string, r: string, k: int) {
    0 <= k <= |s| - |r| && r == s[k..k + |r|] && AllWhite(s[..k]) && AllWhite(s[k + |r|..])
  }

  lemma AllWhiteConcat(a: string, b: string)
    requires AllWhite(a) && AllWhite(b)
    ensures AllWhite(a + b)
  {
    forall i | 0 <= i < |a + b| ensures IsWhite((a + b)[i]) {
      if i < |a| { assert (a + b)[i] == a[i]; } else { assert (a + b)[i] == b[i - |a|]; }
    }
  }

  /** Trimming changes nothing when neither end is white. */
  lemma TrimmedIsFixed(s: string)
    requires Trimmed(s)
    ensures Trim(s) == s
  {
  }

  /** Trimming twice is trimming once. */
  lemma TrimIdempotent(s: string)
    ensures Trim(Trim(s)) == Trim(s)
  {
    TrimmedIsFixed(Trim(s));
  }

  /** A string is trimmed to nothing exactly when it is all white space. */
  lemma {:induction false} TrimEmptyIffAllWhite(s: string)
    ensures Trim(s) == [] <==> AllWhite(s)
    decreases |s|
  {
    if s != [] && IsWhite(s[0]) {
      TrimEmptyIffAllWhite(s[1..]);
      assert AllWhite(s) <==> AllWhite(s[1..]) by {
        if AllWhite(s[1..]) {
          forall i | 0 <= i < |s| ensures IsWhite(s[i]) { if i > 0 { assert s[i] == s[1..][i - 1]; } }
        }
      }
    } else if s != [] && IsWhite(s[|s| - 1]) {
      TrimEmptyIffAllWhite(s[..|s| - 1]);
      assert AllWhite(s) <==> AllWhite(s[..|s| - 1]) by {
        if AllWhite(s[..|s| - 1]) {
          forall i | 0 <= i < |s| ensures IsWhite(s[i]) { if i < |s| - 1 { assert s[i] == s[..|s| - 1][i]; } }
        }
      }
    }
  }

  /** `p` occurs in `s` at index `i`. */
  predicate OccursAt(s: string, p: string, i: int) {
    0 <= i && i + |p| <= |s| && s[i..i + |p|] == p
  }

  /** `s.includes(p)`. */
  predicate Contains(s: string, p: string) {
    exists i :: 0 <= i <= |s| && OccursAt(s, p, i)
  }

  /** `s.startsWith(p)`. */
  predicate StartsWith(s: string, p: string) {
    |p| <= |s| && s[..|p|] == p
  }

  /** `s.endsWith(p)`. */
  predicate EndsWith(s: string, p: string) {
    |p| <= |s| && s[|s| - |p|..] == p
  }

  /** The first index at or after `i` where `p` occurs in `s`, or -1. */
  function IndexFrom(s: string, p: string, i: nat): (r: int)
    ensures r == -1 || (i <= r && OccursAt(s, p, r))
    ensures forall j :: i <= j && (r == -1 || j < r) ==> !OccursAt(s, p, j)
    decreases |s| - i
  {
    if i + |p| > |s| then -1
    else if s[i..i + |p|] == p then i
    else IndexFrom(s, p, i + 1)
  }

  /** `s.indexOf(p)`: the first index where `p` occurs in `s`, or -1. */
  function IndexOf(s: string, p: string): (r: int)
    ensures r == -1 <==> !Contains(s, p)
    ensures r != -1 ==> OccursAt(s, p, r)
    ensures forall j :: 0 <= j < r ==> !OccursAt(s, p, j)
  {
    IndexFrom(s, p, 0)
  }

  /** A one-character string occurs where that character stands. */
  lemma OccursAtChar(s: string, c: char, i: int)
    ensures OccursAt(s, [c], i) <==> 0 <= i < |s| && s[i] == c
  {
    if 0 <= i < |s| {
      assert s[i..i + 1] == [s[i]];
    }
  }

  /** A string without the character `c` does not contain `[c]`. */
  lemma NotContainsChar(s: string, c: char)
    requires c !in s
    ensures !Contains(s, [c]) && IndexOf(s, [c]) == -1
  {
    forall i | OccursAt(s, [c], i)
      ensures false
    {
      OccursAtChar(s, c, i);
    }
  }

  /** Non-overlapping occurrences of `p` in `s` from index `i` on: the
      length of the array `s.match(new RegExp(p, 'g'))` returns for a pattern
      made of letters only, which matches itself literally. */
  function CountFrom(s: string, p: string, i: nat): nat
    requires |p| > 0
    decreases |s| - i
  {
    var j := IndexFrom(s, p, i);
    if j < 0 then 0 else 1 + CountFrom(s, p, j + |p|)
  }

  /** There is a match from `i` on exactly when `p` occurs at or after `i`. */
  lemma CountFromPositive(s: string, p: string, i: nat)
    requires |p| > 0
    ensures CountFrom(s, p, i) > 0 <==> IndexFrom(s, p, i) != -1
  {
  }

  /** `(s.match(new RegExp(p, 'g')) || []).length` for a literal pattern `p`. */
  function CountOccurrences(s: string, p: string): (r: nat)
    requires |p| > 0
    ensures r > 0 <==> Contains(s, p)
  {
    CountFromPositive(s, p, 0);
    CountFrom(s, p, 0)
  }

  /** The number of indices at or after `i` where `p` occurs in `s`,
      overlapping occurrences included. */
  function NaiveCount(s: string, p: string, i: nat): nat
    decreases |s| + 1 - i
  {
    if i > |s| then 0
    else (if OccursAt(s, p, i) then 1 else 0) + NaiveCount(s, p, i + 1)
  }

  /** No occurrence of `p` can begin inside another: its first character
      does not come back later in it. */
  predicate NoSelfOverlap(p: string) {
    forall j :: 0 < j < |p| ==> p[j] != p[0]
  }

  /** A stretch without occurrences adds nothing to the naive count. */
  lemma {:induction false} NaiveSkip(s: string, p: string, a: nat, b: nat)
    requires a <= b
    requires forall j :: a <= j < b ==> !OccursAt(s, p, j)
    ensures NaiveCount(s, p, a) == NaiveCount(s, p, b)
    decreases b - a
  {
    if a < b && a <= |s| {
      NaiveSkip(s, p, a + 1, b);
    } else if a < b {
      NaiveBeyond(s, p, a);
      NaiveBeyond(s, p, b);
    }
  }

  lemma NaiveBeyond(s: string, p: string, i: nat)
    requires i > |s|
    ensures NaiveCount(s, p, i) == 0
  {
  }

  /** An occurrence of a pattern that cannot overlap itself rules out
      another one starting within it. */
  lemma NoOccurrenceWithin(s: string, p: string, j: nat, k: int)
    requires NoSelfOverlap(p) && OccursAt(s, p, j) && j < k < j + |p|
    ensures !OccursAt(s, p, k)
  {
    assert s[j..j + |p|][k - j] == s[k];
    assert s[k] != p[0];
    if k + |p| <= |s| {
      assert s[k..k + |p|][0] == s[k];
    }
  }

  /** Before the first occurrence at or after `i` the naive count does not
      change; without one it is 0. */
  lemma NaiveToFirst(s: string, p: string, i: nat)
    ensures var j := IndexFrom(s, p, i);
      NaiveCount(s, p, i) == if j < 0 then 0 else NaiveCount(s, p, j)
  {
    var j := IndexFrom(s, p, i);
    if j >= 0 {
      NaiveSkip(s, p, i, j);
    } else if i <= |s| + 1 {
      NaiveSkip(s, p, i, |s| + 1);
      NaiveBeyond(s, p, |s| + 1);
    } else {
      NaiveBeyond(s, p, i);
    }
  }

  /** At an occurrence of a pattern that cannot overlap itself, the naive
      count is that occurrence plus the count after it. */
  lemma NaiveAtMatch(s: string, p: string, j: nat)
    requires |p| > 0 && NoSelfOverlap(p) && OccursAt(s, p, j)
    ensures NaiveCount(s, p, j) == 1 + NaiveCount(s, p, j + |p|)
  {
    assert NaiveCount(s, p, j) == 1 + NaiveCount(s, p, j + 1);
    forall k | j + 1 <= k < j + |p| ensures !OccursAt(s, p, k) {
      NoOccurrenceWithin(s, p, j, k);
    }
    NaiveSkip(s, p, j + 1, j + |p|);
  }

  /** For a pattern that cannot overlap itself, the matches `match` with a
      global expression finds are all the places where the pattern occurs. */
  lemma {:induction false} CountFromNaive(s: string, p: string, i: nat)
    requires |p| > 0 && NoSelfOverlap(p)
    ensures CountFrom(s, p, i) == NaiveCount(s, p, i)
    decreases |s| - i
  {
    var j := IndexFrom(s, p, i);
    if j < 0 {
      CountNone(s, p, i);
    } else {
      var next: nat := j + |p|;
      CountFromNaive(s, p, next);
      CountStep(s, p, i, j);
    }
  }

  /** Without a match at or after `i`, both counts are 0. */
  lemma CountNone(s: string, p: string, i: nat)
    requires |p| > 0 && IndexFrom(s, p, i) < 0
    ensures CountFrom(s, p, i) == 0 && NaiveCount(s, p, i) == 0
  {
    NaiveToFirst(s, p, i);
  }

  /** With its first match at or after `i` at `j`, both counts are one more
      than from the end of that match on. */
  lemma CountStep(s: string, p: string, i: nat, j: nat)
    requires |p| > 0 && NoSelfOverlap(p) && j == IndexFrom(s, p, i)
    ensures CountFrom(s, p, i) == 1 + CountFrom(s, p, j + |p|)
    ensures NaiveCount(s, p, i) == 1 + NaiveCount(s, p, j + |p|)
  {
    NaiveToFirst(s, p, i);
    NaiveAtMatch(s, p, j);
  }

  /** `CountOccurrences` counts every index where a pattern that cannot
      overlap itself occurs. */
  lemma CountOccurrencesNaive(s: string, p: string)
    requires |p| > 0 && NoSelfOverlap(p)
    ensures CountOccurrences(s, p) == NaiveCount(s, p, 0)
  {
    CountFromNaive(s, p, 0);
  }

  /** `s.replace(p, '')`: the first occurrence of `p` cut out of `s`; an empty
      pattern matches at index 0 and so leaves `s` unchanged. */
  function ReplaceFirst(s: string, p: string): (r: string)
    ensures !Contains(s, p) ==> r == s
    ensures Contains(s, p) ==> |r| == |s| - |p|
  {
    var i := IndexOf(s, p);
    if i < 0 then s else s[..i] + s[i + |p|..]
  }

  /** A pattern standing at the front is found there. */
  lemma IndexOfFront(s: string, p: string)
    requires StartsWith(s, p)
    ensures IndexOf(s, p) == 0
  {
    assert OccursAt(s, p, 0);
  }

  /** `replace` on a string that begins with the pattern drops the prefix. */
  lemma ReplaceFront(p: string, x: string)
    ensures ReplaceFirst(p + x, p) == x
  {
    assert (p + x)[..|p|] == p;
    IndexOfFront(p + x, p);
    assert (p + x)[|p|..] == x;
  }

  /** `replace` of a character that first stands just after `x`. */
  lemma ReplaceAfter(x: string, c: char, y: string)
    requires c !in x
    ensures ReplaceFirst(x + [c] + y, [c]) == x + y
  {
    var s := x + [c] + y;
    forall j | 0 <= j < |x| ensures !OccursAt(s, [c], j) {
      OccursAtChar(s, c, j);
      assert s[j] == x[j];
    }
    OccursAtChar(s, c, |x|);
    assert IndexOf(s, [c]) == |x|;
    assert s[..|x|] == x && s[|x| + 1..] == y;
  }

  /** Putting the pattern back where `replace` cut it out restores `s`. */
  lemma ReplaceFirstRestores(s: string, p: string)
    requires Contains(s, p)
    ensures var r := ReplaceFirst(s, p);
      s == r[..IndexOf(s, p)] + p + r[IndexOf(s, p)..]
  {
    var i := IndexOf(s, p);
    var r := ReplaceFirst(s, p);
    assert r[..i] == s[..i] && r[i..] == s[i + |p|..];
  }

  /** The number of times the character `c` appears in `s`. */
  function CountChar(s: string, c: char): nat {
    if s == [] then 0
    else (if s[0] == c then 1 else 0) + CountChar(s[1..], c)
  }

  /** `pieces` glued back together with `sep` between neighbours. */
  function Join(pieces: seq<string>, sep: char): string
    requires |pieces| > 0
  {
    if |pieces| == 1 then pieces[0]
    else pieces[0] + [sep] + Join(pieces[1..], sep)
  }

  /** `s.split(sep)` for a one-character separator: the maximal pieces of `s`
      between occurrences of `sep`, one more than there are separators. */
  function Split(s: string, sep: char): (r: seq<string>)
    ensures |r| == CountChar(s, sep) + 1
    ensures forall i :: 0 <= i < |r| ==> sep !in r[i]
    decreases |s|
  {
    var i := IndexOf(s, [sep]);
    if i < 0 then
      assert sep !in s by {
        forall j | 0 <= j < |s| ensures s[j] != sep {
          OccursAtChar(s, sep, j);
        }
      }
      CountCharAbsent(s, sep);
      [s]
    else
      OccursAtChar(s, sep, i);
      var head := s[..i];
      var rest := Split(s[i + 1..], sep);
      assert sep !in head by {
        forall j | 0 <= j < i ensures s[j] != sep {
          OccursAtChar(s, sep, j);
        }
      }
      CountCharAbsent(head, sep);
      CountCharAppend(head, [sep] + s[i + 1..], sep);
      CountCharAppend([sep], s[i + 1..], sep);
      assert s == head + ([sep] + s[i + 1..]);
      [head] + rest
  }

  /** Joining the pieces of a split with the separator gives back the
      original string. */
  lemma {:induction false} JoinSplit(s: string, sep: char)
    ensures Join(Split(s, sep), sep) == s
    decreases |s|
  {
    var i := IndexOf(s, [sep]);
    if i >= 0 {
      JoinSplit(s[i + 1..], sep);
      SplitStep(s, sep, i);
    }
  }

  /** One step of a split: the piece before the first separator, then the
      split of the rest. */
  lemma SplitStep(s: string, sep: char, i: int)
    requires i == IndexOf(s, [sep]) && i >= 0
    requires Join(Split(s[i + 1..], sep), sep) == s[i + 1..]
    ensures Join(Split(s, sep), sep) == s
  {
    OccursAtChar(s, sep, i);
    var rest := Split(s[i + 1..], sep);
    var r := [s[..i]] + rest;
    assert Split(s, sep) == r;
    assert r[1..] == rest;
    assert Join(r, sep) == s[..i] + [sep] + s[i + 1..];
    assert s == s[..i] + [sep] + s[i + 1..];
  }

  lemma {:induction false} CountCharAbsent(s: string, c: char)
    requires c !in s
    ensures CountChar(s, c) == 0
  {
    if s != [] {
      assert c !in s[1..];
      CountCharAbsent(s[1..], c);
    }
  }

  lemma {:induction false} CountCharAppend(a: string, b: string, c: char)
    ensures CountChar(a + b, c) == CountChar(a, c) + CountChar(b, c)
  {
    if a != [] {
      assert (a + b)[1..] == a[1..] + b;
      CountCharAppend(a[1..], b, c);
    } else {
      assert a + b == b;
    }
  }

  /** Splitting a string that holds exactly one separator gives the text
      before it and the text after it. */
  lemma SplitAtOnlySeparator(s: string, sep: char, i: int)
    requires 0 <= i < |s| && s[i] == sep && sep !in s[..i] && sep !in s[i + 1..]
    ensures Split(s, sep) == [s[..i], s[i + 1..]]
  {
    assert forall j :: 0 <= j < i ==> s[j] == s[..i][j];
    forall j | 0 <= j < i ensures !OccursAt(s, [sep], j) {
      OccursAtChar(s, sep, j);
    }
    OccursAtChar(s, sep, i);
    assert IndexOf(s, [sep]) == i;
    NotContainsChar(s[i + 1..], sep);
  }
}
