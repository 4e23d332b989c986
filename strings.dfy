/** Python's string operations as the two core files use them: `str.strip()`,
    `str.split(sep)`, `str.partition(sep)`, the `in` test for a substring and
    `str.startswith`. Strings are sequences of code points. */
module Strings {
  import opened Wrappers

  /** The characters Python's `str.isspace()` accepts, which `str.strip()`
      with no argument removes. */
  predicate IsSpace(c: char) {
    ('\t' <= c <= '\r') || ('\U{1c}' <= c <= '\U{1f}') || c == ' '
    || c == '\U{85}' || c == '\U{a0}' || c == '\U{1680}'
    || ('\U{2000}' <= c <= '\U{200a}') || c == '\U{2028}' || c == '\U{2029}'
    || c == '\U{202f}' || c == '\U{205f}' || c == '\U{3000}'
  }

  /** `s` with its leading whitespace removed. */
  function TrimStart(s: string): (r: string)
    ensures |r| <= |s| && r == s[|s| - |r|..]
    ensures r != [] ==> !IsSpace(r[0])
  {
    if |s| > 0 && IsSpace(s[0]) then TrimStart(s[1..]) else s
  }

  /** `s` with its trailing whitespace removed. */
  function TrimEnd(s: string): (r: string)
    ensures |r| <= |s| && r == s[..|r|]
    ensures r != [] ==> !IsSpace(r[|r| - 1])
  {
    if |s| > 0 && IsSpace(s[|s| - 1]) then TrimEnd(s[..|s| - 1]) else s
  }

  /** Every character of `t` is whitespace. */
  predicate AllSpace(t: string) {
    forall i :: 0 <= i < |t| ==> IsSpace(t[i])
  }

  /** `r` is what is left of `s` once the whitespace `a` in front and the
      whitespace `b` behind are cut away. */
  predicate Framed(s: string, a: string, r: string, b: string) {
    s == a + r + b && AllSpace(a) && AllSpace(b)
  }

  /** Python's `s.strip()`: `s` with the whitespace cut from both ends. */
  function Strip(s: string): (r: string)
    ensures r != [] ==> !IsSpace(r[0]) && !IsSpace(r[|r| - 1])
  {
    TrimEnd(TrimStart(s))
  }

  /** What `strip()` removes is whitespace, from the two ends only: `s` is
      `Strip(s)` framed by whitespace. */
  lemma StripFrames(s: string)
    ensures exists a, b :: Framed(s, a, Strip(s), b)
  {
    var t := TrimStart(s);
    var r := TrimEnd(t);
    TrimStartFront(s);
    TrimEndBack(t);
    var a, b := s[..|s| - |t|], t[|r|..];
    assert s == a + r + b;
    assert Framed(s, a, r, b);
    assert r == Strip(s);
  }

  /** A character absent from `s` is absent from `Strip(s)`: stripping only
      takes characters away. */
  lemma StripKeepsOut(s: string, c: char)
    requires c !in s
    ensures c !in Strip(s)
  {
    var t := TrimStart(s);
    var r := Strip(s);
    assert t == s[|s| - |t|..];
    assert r == t[..|r|];
    forall i | 0 <= i < |r|
      ensures r[i] != c
    {
      assert r[i] == s[|s| - |t| + i];
    }
  }

  /** What `TrimStart` removes is a run of whitespace in front. */
  lemma {:induction false} TrimStartFront(s: string)
    ensures AllSpace(s[..|s| - |TrimStart(s)|])
  {
    if |s| > 0 && IsSpace(s[0]) {
      var rest := s[1..];
      TrimStartFront(rest);
      var k := |s| - |TrimStart(rest)|;
      var front := s[..k];
      forall i | 0 <= i < k
        ensures IsSpace(front[i])
      {
        if i > 0 {
          assert front[i] == rest[..k - 1][i - 1];
        }
      }
    }
  }

  /** What `TrimEnd` removes is a run of whitespace behind. */
  lemma {:induction false} TrimEndBack(t: string)
    ensures AllSpace(t[|TrimEnd(t)|..])
  {
    if |t| > 0 && IsSpace(t[|t| - 1]) {
      var init := t[..|t| - 1];
      TrimEndBack(init);
      var n := |TrimEnd(init)|;
      var back := t[n..];
      forall i | 0 <= i < |back|
        ensures IsSpace(back[i])
      {
        if i < |back| - 1 {
          assert back[i] == init[n..][i];
        }
      }
    }
  }

  /** Stripping a string that already begins and ends with a non-space
      character (or is empty) leaves it unchanged. */
  lemma StripUnchanged(s: string)
    requires s != [] ==> !IsSpace(s[0]) && !IsSpace(s[|s| - 1])
    ensures Strip(s) == s
  {
    assert s == [] + s + [];
    StripFramed(s, [], s, []);
  }

  /** A leading space makes no difference to `strip()`. */
  lemma StripLeadingSpace(s: string)
    ensures Strip(" " + s) == Strip(s)
  {
    assert (" " + s)[1..] == s;
  }

  /** Leading whitespace makes no difference to `TrimStart`. */
  lemma {:induction false} TrimStartSkips(a: string, x: string)
    requires AllSpace(a)
    ensures TrimStart(a + x) == TrimStart(x)
  {
    if a != [] {
      var y := a + x;
      assert y[0] == a[0] && IsSpace(y[0]);
      assert TrimStart(y) == TrimStart(y[1..]);
      assert y[1..] == a[1..] + x;
      assert AllSpace(a[1..]);
      TrimStartSkips(a[1..], x);
    } else {
      assert a + x == x;
    }
  }

  /** Trailing whitespace makes no difference to `TrimEnd`. */
  lemma {:induction false} TrimEndSkips(x: string, b: string)
    requires AllSpace(b)
    ensures TrimEnd(x + b) == TrimEnd(x)
  {
    if b != [] {
      var y := x + b;
      assert y[|y| - 1] == b[|b| - 1] && IsSpace(y[|y| - 1]);
      assert TrimEnd(y) == TrimEnd(y[..|y| - 1]);
      assert y[..|y| - 1] == x + b[..|b| - 1];
      assert AllSpace(b[..|b| - 1]);
      TrimEndSkips(x, b[..|b| - 1]);
    } else {
      assert x + b == x;
    }
  }

  /** Stripping whitespace-framed text that neither begins nor ends with
      whitespace gives that text back. */
  lemma StripFramed(s: string, a: string, r: string, b: string)
    requires Framed(s, a, r, b)
    requires r != [] ==> !IsSpace(r[0]) && !IsSpace(r[|r| - 1])
    ensures Strip(s) == r
  {
    var rb := r + b;
    assert s == a + rb;
    TrimStartSkips(a, rb);
    assert TrimStart(s) == TrimStart(rb);
    if r == [] {
      assert rb == b + [];
      TrimStartSkips(b, []);
      assert TrimStart(rb) == [];
    } else {
      assert rb[0] == r[0];
      assert TrimStart(rb) == rb;
      TrimEndSkips(r, b);
      assert TrimEnd(r) == r;
    }
  }

  /** `s.find(c)` for a single character, as an option: the index of the
      first occurrence of `c`. */
  function Find(s: string, c: char): (r: Option<nat>)
    ensures r.Some? <==> c in s
    ensures r.Some? ==> r.value < |s| && s[r.value] == c && c !in s[..r.value]
  {
    if |s| == 0 then None
    else if s[0] == c then Some(0)
    else
      match Find(s[1..], c)
      case None => None
      case Some(i) => assert s[..i + 1] == [s[0]] + s[1..][..i]; Some(i + 1)
  }

  /** The pieces joined back with `sep` between them: Python's
      `sep.join(parts)`. */
  function Join(parts: seq<string>, sep: char): string
    requires |parts| >= 1
  {
    if |parts| == 1 then parts[0] else parts[0] + [sep] + Join(parts[1..], sep)
  }

  /** Python's `s.split(sep)` for a one-character separator: the maximal
      pieces of `s` free of `sep`, in order; there is always at least one
      (an empty `s` gives `[""]`). */
  function Split(s: string, sep: char): (parts: seq<string>)
    ensures |parts| >= 1
    ensures sep in s <==> |parts| >= 2
    decreases |s|
  {
    match Find(s, sep)
    case None => [s]
    case Some(i) => [s[..i]] + Split(s[i + 1..], sep)
  }

  /** No piece of `s.split(sep)` contains `sep`. */
  lemma {:induction false} SplitPiecesFree(s: string, sep: char)
    ensures forall i :: 0 <= i < |Split(s, sep)| ==> sep !in Split(s, sep)[i]
    decreases |s|
  {
    match Find(s, sep)
    case None =>
    case Some(i) =>
      var rest := Split(s[i + 1..], sep);
      SplitPiecesFree(s[i + 1..], sep);
      var parts := [s[..i]] + rest;
      assert Split(s, sep) == parts;
      forall k | 0 <= k < |parts|
        ensures sep !in parts[k]
      {
        if k > 0 {
          assert parts[k] == rest[k - 1];
        }
      }
  }

  /** Joining the pieces of `s.split(sep)` with `sep` gives `s` back. */
  lemma {:induction false} SplitJoin(s: string, sep: char)
    ensures Join(Split(s, sep), sep) == s
    decreases |s|
  {
    match Find(s, sep)
    case None =>
    case Some(i) =>
      var rest := Split(s[i + 1..], sep);
      SplitJoin(s[i + 1..], sep);
      assert ([s[..i]] + rest)[1..] == rest;
      assert s == s[..i] + [sep] + s[i + 1..];
  }

  /** The first piece of `s.split(sep)` is the text before the first `sep`,
      or all of `s` when there is none. */
  lemma {:induction false} SplitHead(s: string, sep: char)
    ensures var p := Split(s, sep)[0];
      |p| <= |s| && p == s[..|p|] && (|p| == |s| || s[|p|] == sep)
  {
  }

  /** When `s` contains `sep`, the second piece of `s.split(sep)` is the text
      after the first `sep`, up to the next `sep` or the end of `s`. */
  lemma {:induction false} SplitSecond(s: string, sep: char)
    requires sep in s
    ensures var i := Find(s, sep).value;
      var p := Split(s, sep)[1];
      && i + 1 + |p| <= |s|
      && p == s[i + 1..i + 1 + |p|]
      && (i + 1 + |p| == |s| || s[i + 1 + |p|] == sep)
  {
    var i := Find(s, sep).value;
    SplitHead(s[i + 1..], sep);
  }

  /** Python's `s.partition(sep)` for a one-character separator: the text
      before the first `sep`, the separator itself (or "" when absent) and
      the text after it (or "" when absent). */
  function Partition(s: string, sep: char): (r: (string, string, string))
    ensures r.0 + r.1 + r.2 == s
    ensures sep !in r.0
    ensures sep in s ==> r.1 == [sep]
    ensures sep !in s ==> r == (s, "", "")
  {
    match Find(s, sep)
    case None => (s, "", "")
    case Some(i) =>
      assert s == s[..i] + [sep] + s[i + 1..];
      (s[..i], [sep], s[i + 1..])
  }

  /** Partitioning cuts at the first separator, whatever follows it. */
  lemma PartitionAtFirst(s: string, sep: char, before: string, after: string)
    requires s == before + [sep] + after && sep !in before
    ensures Partition(s, sep) == (before, [sep], after)
  {
    var r := Partition(s, sep);
    assert s[|before|] == sep;
    assert |r.0| == |before|;
    assert r.0 == s[..|before|] == before;
    assert r.2 == s[|before| + 1..] == after;
  }

  /** `sub` occurs in `s` starting at index `k`. */
  predicate OccursAt(s: string, sub: string, k: int) {
    0 <= k <= |s| - |sub| && s[k..k + |sub|] == sub
  }

  /** Python's `sub in s` for strings: `sub` occurs in `s` at some offset. */
  predicate Contains(s: string, sub: string) {
    exists k | 0 <= k <= |s| - |sub| :: OccursAt(s, sub, k)
  }

  /** Every character of a substring occurs in the string. */
  lemma ContainsChar(s: string, sub: string, c: char)
    requires Contains(s, sub) && c in sub
    ensures c in s
  {
    var k :| 0 <= k <= |s| - |sub| && OccursAt(s, sub, k);
    var j :| 0 <= j < |sub| && sub[j] == c;
    assert s[k..k + |sub|][j] == s[k + j];
  }

  /** A string contains each of its prefixes. */
  lemma ContainsPrefix(s: string, t: string)
    ensures Contains(s + t, s)
  {
    assert OccursAt(s + t, s, 0);
  }

  /** Python's `s.startswith(prefix)`. */
  predicate StartsWith(s: string, prefix: string) {
    |prefix| <= |s| && s[..|prefix|] == prefix
  }
}
