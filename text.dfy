/** The Python string operations that the command-line tokenizer and
    serialiser are built on: `str.split()` (on whitespace runs),
    `str.split(sep)` for a one-character separator, `sep.join(parts)` and
    `str.strip()`. Strings are sequences of characters. */
module Text {

  /** Python's `str.isspace()` for one character: the ASCII controls 9-13
      and 28-31, the space, NEL, NO-BREAK SPACE and the Unicode space,
      line and paragraph separators. */
  predicate IsSpace(c: char) {
    c == ' ' || ('\t' <= c <= '\r') || ('\U{1C}' <= c <= '\U{1F}')
    || c == '\U{85}' || c == '\U{A0}' || c == '\U{1680}'
    || ('\U{2000}' <= c <= '\U{200A}') || c == '\U{2028}' || c == '\U{2029}'
    || c == '\U{202F}' || c == '\U{205F}' || c == '\U{3000}'
  }

  predicate NoSpace(s: string) {
    forall i :: 0 <= i < |s| ==> !IsSpace(s[i])
  }

  predicate AllSpace(s: string) {
    forall i :: 0 <= i < |s| ==> IsSpace(s[i])
  }

  /** Index of the first occurrence of `x` in `s`, or `|s|` when there is none. */
  function FirstIndex<T(==)>(s: seq<T>, x: T): (i: nat)
    ensures i <= |s|
    ensures forall k :: 0 <= k < i ==> s[k] != x
    ensures i < |s| ==> s[i] == x
  {
    if s == [] || s[0] == x then 0 else 1 + FirstIndex(s[1..], x)
  }

  /** Python's `s.split(sep)` for a one-character separator: the pieces
      between separators, empty pieces included, never an empty list. */
  function SplitOn(s: string, sep: char): (parts: seq<string>)
    ensures |parts| >= 1
    ensures forall j :: 0 <= j < |parts| ==> sep !in parts[j]
    decreases |s|
  {
    var i := FirstIndex(s, sep);
    if i == |s| then [s] else [s[..i]] + SplitOn(s[i + 1..], sep)
  }

  /** Python's `sep.join(parts)`. */
  function JoinWith(parts: seq<string>, sep: string): string {
    if |parts| == 0 then ""
    else if |parts| == 1 then parts[0]
    else parts[0] + sep + JoinWith(parts[1..], sep)
  }

  lemma JoinCons(w: string, ws: seq<string>, sep: string)
    requires ws != []
    ensures JoinWith([w] + ws, sep) == w + sep + JoinWith(ws, sep)
  {
    assert ([w] + ws)[1..] == ws;
  }

  /** Joining one more part adds the separator and the part at the end. */
  lemma {:induction false} JoinAppend(ws: seq<string>, w: string, sep: string)
    requires ws != []
    ensures JoinWith(ws + [w], sep) == JoinWith(ws, sep) + sep + w
    decreases |ws|
  {
    if |ws| == 1 {
      assert ws + [w] == [ws[0]] + [w];
      JoinCons(ws[0], [w], sep);
    } else {
      JoinAppend(ws[1..], w, sep);
      assert ws + [w] == [ws[0]] + (ws[1..] + [w]);
      JoinCons(ws[0], ws[1..] + [w], sep);
      JoinCons(ws[0], ws[1..], sep);
      assert [ws[0]] + ws[1..] == ws;
    }
  }

  /** Python's `s.lstrip()`: the longest suffix that does not start with whitespace. */
  function TrimStart(s: string): (r: string)
    ensures |r| <= |s|
    ensures r == [] || !IsSpace(r[0])
    ensures s != [] && IsSpace(s[0]) ==> |r| < |s|
  {
    if s != [] && IsSpace(s[0]) then TrimStart(s[1..]) else s
  }

  /** What `lstrip()` drops is whitespace, and what it keeps is a suffix. */
  lemma {:induction false} TrimStartSuffix(s: string)
    ensures var r := TrimStart(s); r == s[|s| - |r|..] && AllSpace(s[..|s| - |r|])
    decreases |s|
  {
    if s != [] && IsSpace(s[0]) {
      TrimStartSuffix(s[1..]);
      var r := TrimStart(s[1..]);
      assert s[1..][|s| - 1 - |r|..] == s[|s| - |r|..];
      var k := |s| - |r|;
      forall i | 0 <= i < k ensures IsSpace(s[..k][i]) {
        if i > 0 {
          assert s[..k][i] == s[1..][..k - 1][i - 1];
        }
      }
    }
  }

  /** Python's `s.rstrip()`. */
  function TrimEnd(s: string): (r: string)
    ensures |r| <= |s| && r == s[..|r|]
    ensures AllSpace(s[|r|..])
    ensures r == [] || !IsSpace(r[|r| - 1])
  {
    if s != [] && IsSpace(s[|s| - 1]) then
      var r := TrimEnd(s[..|s| - 1]);
      assert s[|r|..] == s[..|s| - 1][|r|..] + [s[|s| - 1]];
      r
    else s
  }

  /** Python's `s.strip()`. */
  function Strip(s: string): string {
    TrimEnd(TrimStart(s))
  }

  /** Length of the leading run of non-whitespace characters. */
  function WordLength(s: string): (n: nat)
    ensures n <= |s| && NoSpace(s[..n])
    ensures n < |s| ==> IsSpace(s[n])
  {
    if s == [] || IsSpace(s[0]) then 0 else 1 + WordLength(s[1..])
  }

  /** Python's `s.split()`: the maximal whitespace-free fragments, in order. */
  function Words(s: string): (ws: seq<string>)
    ensures forall j :: 0 <= j < |ws| ==> ws[j] != [] && NoSpace(ws[j])
    decreases |s|
  {
    var t := TrimStart(s);
    if t == [] then []
    else
      var n := WordLength(t);
      [t[..n]] + Words(t[n..])
  }

  /** Every whitespace run replaced by one space character. */
  function Collapse(s: string): string
    decreases |s|
  {
    if s == [] then []
    else if IsSpace(s[0]) then " " + Collapse(TrimStart(s))
    else [s[0]] + Collapse(s[1..])
  }

  /** The line with its whitespace runs collapsed to one space and its ends trimmed. */
  function Normalize(s: string): string {
    Strip(Collapse(s))
  }

  /** Only single spaces between fragments, and none at either end. */
  predicate SingleSpaced(s: string) {
    && (s == [] || !IsSpace(s[0]))
    && forall i :: 0 <= i < |s| && IsSpace(s[i]) ==> s[i] == ' ' && i + 1 < |s| && !IsSpace(s[i + 1])
  }

  // ---------------------------------------------------------------------
  // split(sep) and join

  lemma {:induction false} JoinSplit(s: string, sep: char)
    ensures JoinWith(SplitOn(s, sep), [sep]) == s
    decreases |s|
  {
    var i := FirstIndex(s, sep);
    if i < |s| {
      var rest := SplitOn(s[i + 1..], sep);
      assert SplitOn(s, sep) == [s[..i]] + rest;
      JoinCons(s[..i], rest, [sep]);
      JoinSplit(s[i + 1..], sep);
      assert s == s[..i] + [sep] + s[i + 1..];
    }
  }

  lemma {:induction false} SplitJoin(parts: seq<string>, sep: char)
    requires |parts| >= 1
    requires forall j :: 0 <= j < |parts| ==> sep !in parts[j]
    ensures SplitOn(JoinWith(parts, [sep]), sep) == parts
    decreases |parts|
  {
    var p := parts[0];
    if |parts| == 1 {
      var i := FirstIndex(p, sep);
      assert i == |p|;
    } else {
      var rest := JoinWith(parts[1..], [sep]);
      var s := p + [sep] + rest;
      var i := FirstIndex(s, sep);
      assert s[|p|] == sep;
      assert forall k :: 0 <= k < |p| ==> s[k] == p[k];
      assert i == |p|;
      assert s[..i] == p;
      assert s[i + 1..] == rest;
      SplitJoin(parts[1..], sep);
    }
  }

  lemma {:induction false} SplitNoSpace(s: string, sep: char)
    requires NoSpace(s)
    ensures forall j :: 0 <= j < |SplitOn(s, sep)| ==> NoSpace(SplitOn(s, sep)[j])
    decreases |s|
  {
    var i := FirstIndex(s, sep);
    if i < |s| {
      SplitNoSpace(s[i + 1..], sep);
    }
  }

  lemma {:induction false} JoinNoSpace(parts: seq<string>, sep: string)
    requires NoSpace(sep)
    requires forall j :: 0 <= j < |parts| ==> NoSpace(parts[j])
    ensures NoSpace(JoinWith(parts, sep))
    decreases |parts|
  {
    if |parts| > 1 {
      JoinNoSpace(parts[1..], sep);
    }
  }

  lemma JoinFirst(parts: seq<string>, sep: string)
    requires |parts| >= 1 && parts[0] != []
    ensures JoinWith(parts, sep) != [] && JoinWith(parts, sep)[0] == parts[0][0]
  {
  }

  lemma {:induction false} JoinLast(parts: seq<string>, sep: string)
    requires |parts| >= 1 && parts[|parts| - 1] != []
    ensures var j := JoinWith(parts, sep); var l := parts[|parts| - 1];
      j != [] && j[|j| - 1] == l[|l| - 1]
    decreases |parts|
  {
    if |parts| > 1 {
      JoinLast(parts[1..], sep);
    }
  }

  /** Words joined by anything are empty exactly when there are no words,
      and otherwise begin and end with a non-space character. */
  lemma JoinClean(ws: seq<string>, sep: string)
    requires forall j :: 0 <= j < |ws| ==> ws[j] != [] && NoSpace(ws[j])
    ensures var j := JoinWith(ws, sep);
      (j == [] <==> ws == []) && (j != [] ==> !IsSpace(j[0]) && !IsSpace(j[|j| - 1]))
  {
    if ws != [] {
      JoinFirst(ws, sep);
      JoinLast(ws, sep);
    }
  }

  // ---------------------------------------------------------------------
  // strip

  lemma {:induction false} TrimStartOf(a: string, y: string)
    requires AllSpace(a)
    requires y == [] || !IsSpace(y[0])
    ensures TrimStart(a + y) == y
    decreases |a|
  {
    if a == [] {
      assert a + y == y;
    } else {
      assert (a + y)[1..] == a[1..] + y;
      TrimStartOf(a[1..], y);
    }
  }

  lemma {:induction false} TrimEndOf(y: string, b: string)
    requires AllSpace(b)
    requires y == [] || !IsSpace(y[|y| - 1])
    ensures TrimEnd(y + b) == y
    decreases |b|
  {
    if b == [] {
      assert y + b == y;
    } else {
      assert (y + b)[..|y + b| - 1] == y + b[..|b| - 1];
      TrimEndOf(y, b[..|b| - 1]);
    }
  }

  /** `strip()` removes exactly the whitespace padding around a text that
      has non-space characters at both of its ends. */
  lemma StripPadded(a: string, j: string, b: string)
    requires AllSpace(a) && AllSpace(b)
    requires j == [] || (!IsSpace(j[0]) && !IsSpace(j[|j| - 1]))
    ensures Strip(a + j + b) == j
  {
    if j == [] {
      assert a + j + b == (a + b) + [];
      TrimStartOf(a + b, []);
    } else {
      assert a + j + b == a + (j + b);
      TrimStartOf(a, j + b);
      TrimEndOf(j, b);
    }
  }

  // ---------------------------------------------------------------------
  // split() and whitespace normalisation

  lemma {:induction false} WordLengthOf(w: string, x: string)
    requires NoSpace(w)
    requires x == [] || IsSpace(x[0])
    ensures WordLength(w + x) == |w|
    decreases |w|
  {
    if w == [] {
      assert w + x == x;
    } else {
      assert (w + x)[0] == w[0];
      assert (w + x)[1..] == w[1..] + x;
      WordLengthOf(w[1..], x);
    }
  }

  lemma {:induction false} CollapseWord(w: string, x: string)
    requires NoSpace(w)
    ensures Collapse(w + x) == w + Collapse(x)
    decreases |w|
  {
    if w == [] {
      assert w + x == x;
    } else {
      assert (w + x)[0] == w[0];
      assert (w + x)[1..] == w[1..] + x;
      CollapseWord(w[1..], x);
    }
  }

  /** `split()` of a text that starts with a fragment. */
  lemma WordsStep(u: string)
    requires u != [] && !IsSpace(u[0])
    ensures var n := WordLength(u); 0 < n && Words(u) == [u[..n]] + Words(u[n..])
  {
    assert TrimStart(u) == u;
  }

  /** Leading whitespace does not change `split()`. */
  lemma WordsSkip(r: string)
    ensures Words(r) == Words(TrimStart(r))
  {
    var v := TrimStart(r);
    assert TrimStart(v) == v;
  }

  /** One space when the text ends in whitespace, nothing otherwise. */
  function SpaceTail(u: string): string {
    if u != [] && IsSpace(u[|u| - 1]) then " " else ""
  }

  /** Concatenation regrouped, as one step the solver does not find alone
      inside CollapseStep. */
  lemma Regroup(a: string, b: string, c: string, d: string)
    ensures a + (b + (c + d)) == (a + b + c) + d
  {
  }

  /** A text that ends with a suffix ends in whitespace when that suffix does. */
  lemma SpaceTailSuffix(u: string, v: string, k: nat)
    requires k <= |u| && v == u[k..] && v != []
    ensures SpaceTail(u) == SpaceTail(v)
  {
    assert v[|v| - 1] == u[|u| - 1];
  }

  /** The step of CollapseWords: `u` is the fragment `w` followed by `rest`,
      which starts with whitespace and continues with `v`, the text whose
      fragments are `ws`. */
  lemma CollapseStep(u: string, w: string, rest: string, v: string, ws: seq<string>)
    requires u == w + rest && w != [] && NoSpace(w)
    requires rest != [] && IsSpace(rest[0]) && v == TrimStart(rest)
    requires v == [] <==> ws == []
    requires Collapse(v) == JoinWith(ws, " ") + SpaceTail(v)
    ensures Collapse(u) == JoinWith([w] + ws, " ") + SpaceTail(u)
  {
    CollapseWord(w, rest);
    assert Collapse(rest) == " " + Collapse(v);
    TrimStartSuffix(rest);
    if v == [] {
      assert rest[..|rest|] == rest;
      assert u[|u| - 1] == rest[|rest| - 1];
      assert [w] + ws == [w];
    } else {
      JoinCons(w, ws, " ");
      assert u[|u| - |v|..] == v;
      SpaceTailSuffix(u, v, |u| - |v|);
      Regroup(w, " ", JoinWith(ws, " "), SpaceTail(v));
    }
  }

  /** A text that does not start with whitespace collapses to its words
      joined by single spaces, plus one space if it ends in whitespace. */
  lemma {:induction false} CollapseWords(u: string)
    requires u == [] || !IsSpace(u[0])
    ensures Collapse(u) == JoinWith(Words(u), " ") + SpaceTail(u)
    decreases |u|
  {
    if u != [] {
      WordsStep(u);
      var n := WordLength(u);
      var w, rest := u[..n], u[n..];
      assert u == w + rest;
      if rest == [] {
        CollapseWord(w, rest);
        assert u[|u| - 1] == w[n - 1];
      } else {
        var v := TrimStart(rest);
        WordsSkip(rest);
        CollapseWords(v);
        WordsBlank(v);
        CollapseStep(u, w, rest, v, Words(v));
      }
    }
  }

  /** The whitespace normalisation of a line is its `split()` fragments
      joined by single spaces. */
  lemma NormalizeWords(s: string)
    ensures Normalize(s) == JoinWith(Words(s), " ")
  {
    var v := TrimStart(s);
    WordsSkip(s);
    CollapseWords(v);
    JoinClean(Words(v), " ");
    StripCollapse(s, v, JoinWith(Words(v), " "));
  }

  /** The end of NormalizeWords: `v` is `s` without its leading whitespace
      and collapses to the clean text `j` plus at most one space. */
  lemma StripCollapse(s: string, v: string, j: string)
    requires v == TrimStart(s)
    requires Collapse(v) == j + SpaceTail(v)
    requires j == [] || (!IsSpace(j[0]) && !IsSpace(j[|j| - 1]))
    ensures Normalize(s) == j
  {
    var lead := if s != [] && IsSpace(s[0]) then " " else "";
    assert Collapse(s) == lead + Collapse(v);
    assert Collapse(s) == lead + j + SpaceTail(v);
    StripPadded(lead, j, SpaceTail(v));
  }

  /** `split()` recovers the fragments of a single-space join. */
  lemma {:induction false} WordsOfJoin(ws: seq<string>)
    requires forall j :: 0 <= j < |ws| ==> ws[j] != [] && NoSpace(ws[j])
    ensures Words(JoinWith(ws, " ")) == ws
    decreases |ws|
  {
    if ws != [] {
      var w := ws[0];
      if |ws| == 1 {
        assert w == w + [];
        WordLengthOf(w, []);
        assert TrimStart(w) == w;
        assert w[|w|..] == [];
      } else {
        var rest := JoinWith(ws[1..], " ");
        var s := w + " " + rest;
        assert s == w + (" " + rest);
        assert TrimStart(s) == s;
        WordLengthOf(w, " " + rest);
        assert s[..|w|] == w;
        assert s[|w|..] == " " + rest;
        JoinClean(ws[1..], " ");
        assert (" " + rest)[1..] == rest;
        assert TrimStart(" " + rest) == rest;
        assert TrimStart(rest) == rest;
        assert Words(" " + rest) == Words(rest);
        WordsOfJoin(ws[1..]);
        assert ws == [w] + ws[1..];
      }
    }
  }

  /** `split()` yields nothing exactly for a blank line. */
  lemma WordsBlank(s: string)
    ensures Words(s) == [] <==> AllSpace(s)
  {
    var t := TrimStart(s);
    TrimStartSuffix(s);
    if t == [] {
      assert s[..|s|] == s;
    } else {
      assert t[0] == s[|s| - |t|];
    }
  }

  lemma {:induction false} CollapseIdle(s: string)
    requires forall i :: 0 <= i < |s| && IsSpace(s[i]) ==> s[i] == ' ' && (i + 1 == |s| || !IsSpace(s[i + 1]))
    ensures Collapse(s) == s
    decreases |s|
  {
    if s != [] {
      assert forall i :: 0 <= i < |s[1..]| ==> s[1..][i] == s[i + 1];
      CollapseIdle(s[1..]);
      if IsSpace(s[0]) {
        assert TrimStart(s) == TrimStart(s[1..]);
        assert TrimStart(s[1..]) == s[1..];
        assert s == " " + s[1..];
      } else {
        assert s == [s[0]] + s[1..];
      }
    }
  }

  /** A line that is already single-spaced is its own normalisation. */
  lemma NormalizeSingleSpaced(s: string)
    requires SingleSpaced(s)
    ensures Normalize(s) == s
  {
    CollapseIdle(s);
    assert s == [] + s + [];
    StripPadded([], s, []);
  }
}
