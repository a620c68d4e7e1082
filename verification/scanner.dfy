/**
 The scanning loop of `validateTextDocument` for one line. For every
 registry key but `AUTO`, in declaration order, the server counts the key's
 occurrences in a working copy of the line and then, that many times, finds
 the key, cuts the text from it up to the first `)` after it out of the
 working copy and trims what is left. The working copy is shared by all
 keys, so it shrinks as the scan goes on, and the offsets handed to the
 validators are offsets in the shrunken copy, not in the line.
 */
module Scanner {
  import opened JsString
  import opened Registry

  /** One invocation found by the scan: the key, the text cut out of the
      working copy (`MOVETO(1,2)`, or empty when no `)` follows) and the
      offset of the key in the working copy at that moment, -1 when the key
      is no longer there. */
  datatype Call = Call(key: Key, text: string, start: int)

  /** Where the text of a call begins in the working copy: `substring`
      clamps the offset -1 to 0. */
  function From(start: int): nat {
    if start < 0 then 0 else start
  }

  /** No label holds a closing parenthesis. */
  lemma NoParenInName(k: Key)
    ensures ')' !in Name(k)
  {
  }

  /** The text a turn cuts out of the working copy `w` once the label was
      looked up at `start`: from there (or from 0 when the label is gone) up
      to and including the first `)`, and nothing when no `)` follows. */
  function CallText(w: string, start: int): (text: string)
    requires start < |w|
    ensures OccursAt(w, text, From(start))
  {
    var sub := w[From(start)..];
    var end := IndexOf(sub, ")");
    assert w[From(start)..From(start) + end + 1] == sub[..end + 1];
    sub[..end + 1]
  }

  /** One turn of the inner loop: the call it finds in the working copy `w`
      and the working copy after the call's text is removed and the rest
      trimmed. */
  function Cut(key: Key, w: string): (r: (Call, string))
    ensures r.0.key == key && r.0.start >= -1
    ensures r.0.start == -1 <==> !Contains(w, Name(key))
    ensures r.0.start != -1 ==> OccursAt(w, Name(key), r.0.start)
    ensures forall j :: 0 <= j < r.0.start ==> !OccursAt(w, Name(key), j)
    ensures OccursAt(w, r.0.text, From(r.0.start))
    ensures r.1 == Trim(ReplaceFirst(w, r.0.text))
    ensures |r.1| + |r.0.text| <= |w| && Trimmed(r.1)
  {
    var start := IndexOf(w, Name(key));
    var text := CallText(w, start);
    (Call(key, text, start), Trim(ReplaceFirst(w, text)))
  }

  /** The text of a call runs from the scan offset to the first `)` after
      it: it is empty exactly when no `)` follows, and otherwise ends with
      its only `)`. */
  lemma CallTextShape(w: string, start: int)
    requires start < |w|
    ensures var text := CallText(w, start);
      && (text == [] <==> forall j :: From(start) <= j < |w| ==> w[j] != ')')
      && (text != [] ==> text[|text| - 1] == ')' && ')' !in text[..|text| - 1])
  {
    var sub := w[From(start)..];
    var end := IndexOf(sub, ")");
    var text := CallText(w, start);
    forall j | 0 <= j < |sub| ensures OccursAt(sub, ")", j) <==> sub[j] == ')' {
      OccursAtChar(sub, ')', j);
    }
    if text != [] {
      assert forall j :: 0 <= j < end ==> text[j] == sub[j];
    } else {
      forall j | From(start) <= j < |w| ensures w[j] != ')' {
        assert w[j] == sub[j - From(start)];
      }
    }
  }

  /** When the label `p` stands at `start` and holds no `)`, a non-empty
      call text begins with the label. */
  lemma CallTextLabel(w: string, p: string, start: int)
    requires 0 <= start < |w| && OccursAt(w, p, start) && ')' !in p
    requires CallText(w, start) != []
    ensures StartsWith(CallText(w, start), p)
  {
    var sub := w[start..];
    var end := IndexOf(sub, ")");
    var text := CallText(w, start);
    OccursAtChar(sub, ')', end);
    assert sub[..|p|] == p;
    assert text[..|p|] == sub[..|p|];
  }

  /** What a turn cuts: its text is empty exactly when no `)` follows the
      scan offset, otherwise ends with its only `)`, and begins with the
      key's label whenever the key was found. */
  lemma CutText(key: Key, w: string)
    ensures var c := Cut(key, w).0;
      && (c.text == [] <==> forall j :: From(c.start) <= j < |w| ==> w[j] != ')')
      && (c.text != [] ==> c.text[|c.text| - 1] == ')' && ')' !in c.text[..|c.text| - 1])
      && (c.start != -1 && c.text != [] ==> StartsWith(c.text, Name(key)))
  {
    var p := Name(key);
    var c := Cut(key, w).0;
    assert c.text == CallText(w, c.start) && c.start == IndexOf(w, p);
    CallTextShape(w, c.start);
    if c.start != -1 && c.text != [] {
      NoParenInName(key);
      CallTextLabel(w, p, c.start);
    }
  }

  /** Every call in `calls` is one of `key`, scanned at an offset the
      validators accept. */
  predicate CallsOf(calls: seq<Call>, key: Key) {
    forall i :: 0 <= i < |calls| ==> calls[i].key == key && calls[i].start >= -1
  }

  lemma CallsOfCons(c: Call, calls: seq<Call>, key: Key)
    requires c.key == key && c.start >= -1 && CallsOf(calls, key)
    ensures CallsOf([c] + calls, key)
  {
    assert forall i :: 0 < i < |[c] + calls| ==> ([c] + calls)[i] == calls[i - 1];
  }

  /** The inner loop for one key: `n` turns of `Cut`, each on the working
      copy the previous one left. */
  function Scan(key: Key, w: string, n: nat): (r: (seq<Call>, string))
    ensures |r.0| == n
    ensures CallsOf(r.0, key)
    ensures |r.1| <= |w|
    ensures n == 0 ==> r.1 == w
    decreases n
  {
    if n == 0 then ([], w)
    else
      var cut := Cut(key, w);
      var tail := Scan(key, cut.1, n - 1);
      CallsOfCons(cut.0, tail.0, key);
      ([cut.0] + tail.0, tail.1)
  }

  /** The outer loop from the key at index `from` of the registry on: the
      calls of every key but `AUTO`, each key counted in the working copy
      the keys before it left. */
  function CallsFrom(from: nat, w: string): (r: seq<Call>)
    requires from <= |Keys|
    ensures forall i :: 0 <= i < |r| ==> r[i].key != Auto && r[i].start >= -1 && Data(r[i].key) > from
    ensures forall i, j :: 0 <= i < j < |r| ==> Data(r[i].key) <= Data(r[j].key)
    decreases |Keys| - from
  {
    if from == |Keys| then []
    else if Keys[from] == Auto then CallsFrom(from + 1, w)
    else
      var key := Keys[from];
      var scan := Scan(key, w, CountOccurrences(w, Name(key)));
      KeysInDeclarationOrder();
      scan.0 + CallsFrom(from + 1, scan.1)
  }

  /** The calls the scan of a whole line finds, in the order the server
      validates them. */
  function Calls(line: string): seq<Call> {
    CallsFrom(0, line)
  }

  /** The turn of the key at index `from` of the registry on the working
      copy `w`: nothing for `AUTO`, otherwise one scan per occurrence of
      the key's label in `w`. */
  function Turn(from: nat, w: string): (r: (seq<Call>, string))
    requires from < |Keys|
    ensures CallsOf(r.0, Keys[from]) && |r.1| <= |w|
    ensures |r.0| == if Keys[from] == Auto then 0 else CountOccurrences(w, Name(Keys[from]))
  {
    if Keys[from] == Auto then ([], w)
    else Scan(Keys[from], w, CountOccurrences(w, Name(Keys[from])))
  }

  lemma CallsFromStep(from: nat, w: string)
    requires from < |Keys|
    ensures CallsFrom(from, w) == Turn(from, w).0 + CallsFrom(from + 1, Turn(from, w).1)
  {
  }

  /** The working copy of `line` when the key at index `from` has its turn. */
  function Copy(from: nat, line: string): string
    requires from <= |Keys|
  {
    if from == 0 then line else Turn(from - 1, Copy(from - 1, line)).1
  }

  /** The calls the keys before index `from` find in `line`. */
  function Before(from: nat, line: string): (r: seq<Call>)
    requires from <= |Keys|
    ensures forall i :: 0 <= i < |r| ==> Data(r[i].key) <= from
  {
    if from == 0 then []
    else
      var here := Turn(from - 1, Copy(from - 1, line)).0;
      KeysInDeclarationOrder();
      assert forall i :: 0 <= i < |here| ==> Data(here[i].key) == from;
      Before(from - 1, line) + here
  }

  /** The calls of `line` are those of the keys before index `from`, then
      those the remaining keys find in the copy those keys left. */
  lemma {:induction false} CallsSplitAt(from: nat, line: string)
    requires from <= |Keys|
    ensures Calls(line) == Before(from, line) + CallsFrom(from, Copy(from, line))
  {
    if from > 0 {
      var w := Copy(from - 1, line);
      var t := Turn(from - 1, w);
      var pre := Before(from - 1, line);
      CallsSplitAt(from - 1, line);
      CallsFromStep(from - 1, w);
      CopyStep(from, line);
      Regroup(Calls(line), pre, CallsFrom(from - 1, w), t.0, CallsFrom(from, t.1));
    }
  }

  /** `all` is `pre` then `rest`, and `rest` is `here` then `after`: so
      `all` is `pre + here` then `after`. */
  lemma Regroup(all: seq<Call>, pre: seq<Call>, rest: seq<Call>, here: seq<Call>, after: seq<Call>)
    requires all == pre + rest
    requires rest == here + after
    ensures all == (pre + here) + after
  {
  }

  lemma CopyStep(from: nat, line: string)
    requires 0 < from <= |Keys|
    ensures var t := Turn(from - 1, Copy(from - 1, line));
      Copy(from, line) == t.1 && Before(from, line) == Before(from - 1, line) + t.0
  {
  }

  /** The calls of `calls` that are calls of `key`, in order. */
  function OfKey(calls: seq<Call>, key: Key): seq<Call> {
    if calls == [] then []
    else (if calls[0].key == key then [calls[0]] else []) + OfKey(calls[1..], key)
  }

  lemma {:induction false} OfKeyAppend(a: seq<Call>, b: seq<Call>, key: Key)
    ensures OfKey(a + b, key) == OfKey(a, key) + OfKey(b, key)
  {
    if a != [] {
      var h := if a[0].key == key then [a[0]] else [];
      assert (a + b)[0] == a[0] && (a + b)[1..] == a[1..] + b;
      assert OfKey(a + b, key) == h + OfKey(a[1..] + b, key);
      assert OfKey(a, key) == h + OfKey(a[1..], key);
      OfKeyAppend(a[1..], b, key);
    } else {
      assert a + b == b;
    }
  }

  lemma {:induction false} OfKeyAll(calls: seq<Call>, key: Key)
    requires forall i :: 0 <= i < |calls| ==> calls[i].key == key
    ensures OfKey(calls, key) == calls
  {
    if calls != [] {
      OfKeyAll(calls[1..], key);
      assert calls == [calls[0]] + calls[1..];
    }
  }

  lemma {:induction false} OfKeyNone(calls: seq<Call>, key: Key)
    requires forall i :: 0 <= i < |calls| ==> calls[i].key != key
    ensures OfKey(calls, key) == []
  {
    if calls != [] {
      OfKeyNone(calls[1..], key);
    }
  }

  /** The calls handed to the validator of the key at index `from` are
      exactly the turns of that key's scan, and there are as many as its
      label occurs in the working copy the keys before it left (not as many
      as it occurs in the line). */
  lemma KeyCalls(from: nat, line: string)
    requires from < |Keys| && Keys[from] != Auto
    ensures var key := Keys[from];
      && OfKey(Calls(line), key) == Turn(from, Copy(from, line)).0
      && |OfKey(Calls(line), key)| == CountOccurrences(Copy(from, line), Name(key))
  {
    var key := Keys[from];
    var w := Copy(from, line);
    var pre := Before(from, line);
    var here := Turn(from, w).0;
    var post := CallsFrom(from + 1, Turn(from, w).1);
    CallsSplitAt(from, line);
    CallsFromStep(from, w);
    BeforeOthers(from, line);
    AfterOthers(from, Turn(from, w).1);
    assert Calls(line) == pre + (here + post);
    OfKeyBetween(pre, here, post, key);
  }

  /** The keys before index `from` find no call of the key at `from`. */
  lemma BeforeOthers(from: nat, line: string)
    requires from < |Keys|
    ensures var pre := Before(from, line);
      forall i :: 0 <= i < |pre| ==> pre[i].key != Keys[from]
  {
    DataAt(from);
  }

  /** The keys after index `from` find no call of the key at `from`. */
  lemma AfterOthers(from: nat, w: string)
    requires from < |Keys|
    ensures var post := CallsFrom(from + 1, w);
      forall i :: 0 <= i < |post| ==> post[i].key != Keys[from]
  {
    DataAt(from);
  }

  /** Filtering for `key` keeps the middle of three runs when only the
      middle one holds calls of `key`. */
  lemma OfKeyBetween(pre: seq<Call>, here: seq<Call>, post: seq<Call>, key: Key)
    requires forall i :: 0 <= i < |pre| ==> pre[i].key != key
    requires forall i :: 0 <= i < |here| ==> here[i].key == key
    requires forall i :: 0 <= i < |post| ==> post[i].key != key
    ensures OfKey(pre + (here + post), key) == here
  {
    OfKeyAppend(pre, here + post, key);
    OfKeyAppend(here, post, key);
    OfKeyNone(pre, key);
    OfKeyAll(here, key);
    OfKeyNone(post, key);
    assert [] + (here + []) == here;
  }

  lemma DataAt(from: nat)
    requires from < |Keys|
    ensures Data(Keys[from]) == from + 1
  {
    KeysInDeclarationOrder();
  }

  /** MOVETO, the first key scanned, sees the line itself: it is validated
      once per occurrence of its label in the line. */
  lemma MoveToCalls(line: string)
    ensures |OfKey(Calls(line), MoveTo)| == CountOccurrences(line, Name(MoveTo))
    ensures |OfKey(Calls(line), MoveTo)| == NaiveCount(line, Name(MoveTo), 0)
  {
    KeyCalls(1, line);
    assert Copy(1, line) == line;
    LabelNoSelfOverlap(MoveTo);
    CountOccurrencesNaive(line, Name(MoveTo));
  }

  /** No label's first letter comes back later in it, so two occurrences
      of a label never overlap. */
  lemma LabelNoSelfOverlap(k: Key)
    ensures NoSelfOverlap(Name(k))
  {
  }

  /** The key at index `from` is validated once for every index where its
      label stands in the working copy the keys before it left. */
  lemma KeyCallsPerOccurrence(from: nat, line: string)
    requires from < |Keys| && Keys[from] != Auto
    ensures |OfKey(Calls(line), Keys[from])| == NaiveCount(Copy(from, line), Name(Keys[from]), 0)
  {
    KeyCalls(from, line);
    LabelNoSelfOverlap(Keys[from]);
    CountOccurrencesNaive(Copy(from, line), Name(Keys[from]));
  }

  /** The working copy never grows from one key's turn to a later one. */
  lemma {:induction false} CopyShrinks(i: nat, j: nat, line: string)
    requires i <= j <= |Keys|
    ensures |Copy(j, line)| <= |Copy(i, line)|
    decreases j - i
  {
    if i < j {
      CopyShrinks(i, j - 1, line);
    }
  }

  /** A line in which no label occurs yields no calls: with nothing cut
      out, the working copy never changes and no label ever turns up. */
  lemma {:induction false} NoLabelsNoCalls(from: nat, w: string)
    requires from <= |Keys|
    requires forall k :: k != Auto ==> !Contains(w, Name(k))
    ensures CallsFrom(from, w) == []
    decreases |Keys| - from
  {
    if from < |Keys| {
      NoLabelsNoCalls(from + 1, w);
    }
  }
}
