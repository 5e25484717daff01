/** The token model of a one-line kernel command line (`cmdline.txt`):
    parsing the line into tokens (`tokenize`), printing the tokens back
    (`to_string`) and looking a key up (`has_param`). */
module Tokens {
  import opened Text

  /** The value part of a token: absent for an atom such as `rootwait`,
      otherwise the comma-separated values after the first `=`. */
  datatype Value = Atom | Vals(vals: seq<string>)

  datatype Token = Token(key: string, value: Value)

  /** What `tokenize` can produce from one fragment: a key without
      whitespace or `=`, an atom with a non-empty key, or at least one
      value, each without whitespace or `,`. */
  predicate WellFormed(t: Token) {
    && NoSpace(t.key)
    && '=' !in t.key
    && match t.value
       case Atom => t.key != []
       case Vals(vs) => vs != [] && forall j :: 0 <= j < |vs| ==> NoSpace(vs[j]) && ',' !in vs[j]
  }

  /** One fragment read as `key, *value = fragment.split("=", 1)`: no `=`
      makes an atom, otherwise the rest after the first `=` split on `,`. */
  function ParseFragment(w: string): (t: Token)
    ensures '=' !in t.key
    ensures t.value.Atom? <==> '=' !in w
    ensures t.value.Atom? ==> t.key == w
    ensures t.value.Vals? ==> |t.value.vals| >= 1 && |t.key| < |w| && w[..|t.key|] == t.key && w[|t.key|] == '='
  {
    var i := FirstIndex(w, '=');
    if i == |w| then Token(w, Atom) else Token(w[..i], Vals(SplitOn(w[i + 1..], ',')))
  }

  /** `tokenize`: one token per whitespace-separated fragment, in order. */
  function Tokenize(line: string): seq<Token> {
    var ws := Words(line);
    seq(|ws|, i requires 0 <= i < |ws| => ParseFragment(ws[i]))
  }

  /** One token as `to_string` prints it, without the trailing space. */
  function Render(t: Token): string {
    match t.value
    case Atom => t.key
    case Vals(vs) => t.key + "=" + JoinWith(vs, ",")
  }

  function Renders(ts: seq<Token>): seq<string> {
    seq(|ts|, i requires 0 <= i < |ts| => Render(ts[i]))
  }

  /** The accumulator of `to_string` before the final `strip()`: every
      token followed by one space. */
  function Spaced(ts: seq<Token>): string {
    if ts == [] then "" else Render(ts[0]) + " " + Spaced(ts[1..])
  }

  /** `to_string`. */
  function ToString(ts: seq<Token>): string {
    Strip(Spaced(ts))
  }

  /** `has_param`: a linear search for a token with the given key. */
  function HasParam(ts: seq<Token>, key: string): (b: bool)
    ensures b <==> exists i :: 0 <= i < |ts| && ts[i].key == key
  {
    if ts == [] then false
    else if ts[0].key == key then true
    else
      assert forall i :: 0 < i < |ts| ==> ts[i] == ts[1..][i - 1];
      HasParam(ts[1..], key)
  }

  // ---------------------------------------------------------------------
  // One fragment

  /** Printing a parsed fragment gives the fragment back. */
  lemma RenderParse(w: string)
    ensures Render(ParseFragment(w)) == w
  {
    var i := FirstIndex(w, '=');
    if i < |w| {
      JoinSplit(w[i + 1..], ',');
      assert w == w[..i] + "=" + w[i + 1..];
    }
  }

  /** Parsing a printed well-formed token gives the token back. */
  lemma ParseRender(t: Token)
    requires WellFormed(t)
    ensures ParseFragment(Render(t)) == t
  {
    var k := t.key;
    match t.value
    case Atom =>
      var i := FirstIndex(k, '=');
      assert i == |k|;
    case Vals(vs) =>
      var j := JoinWith(vs, ",");
      var s := k + "=" + j;
      var i := FirstIndex(s, '=');
      assert s[|k|] == '=';
      assert forall n :: 0 <= n < |k| ==> s[n] == k[n];
      assert i == |k|;
      assert s[..i] == k;
      assert s[i + 1..] == j;
      SplitJoin(vs, ',');
  }

  /** A fragment of `split()` parses to a well-formed token. */
  lemma ParseWellFormed(w: string)
    requires w != [] && NoSpace(w)
    ensures WellFormed(ParseFragment(w))
  {
    var i := FirstIndex(w, '=');
    if i < |w| {
      assert NoSpace(w[i + 1..]);
      SplitNoSpace(w[i + 1..], ',');
    }
  }

  /** A well-formed token prints as a non-empty text without whitespace. */
  lemma RenderWellFormed(t: Token)
    requires WellFormed(t)
    ensures Render(t) != [] && NoSpace(Render(t))
  {
    match t.value
    case Atom =>
    case Vals(vs) =>
      JoinNoSpace(vs, ",");
      var j := JoinWith(vs, ",");
      assert forall n :: 0 <= n < |t.key + "=" + j| ==>
        (t.key + "=" + j)[n] == if n < |t.key| then t.key[n] else if n == |t.key| then '=' else j[n - |t.key| - 1];
  }

  // ---------------------------------------------------------------------
  // tokenize

  /** `tokenize` makes one token per `split()` fragment, in input order and
      without deduplication: each token prints as its own fragment. */
  lemma TokenizeFragments(line: string)
    ensures var ts := Tokenize(line);
      |ts| == |Words(line)| && forall i :: 0 <= i < |ts| ==> Render(ts[i]) == Words(line)[i]
  {
    forall i | 0 <= i < |Words(line)| {
      RenderParse(Words(line)[i]);
    }
  }

  /** Every token `tokenize` produces is well formed. */
  lemma TokenizeWellFormed(line: string)
    ensures forall i :: 0 <= i < |Tokenize(line)| ==> WellFormed(Tokenize(line)[i])
  {
    forall i | 0 <= i < |Words(line)| {
      ParseWellFormed(Words(line)[i]);
    }
  }

  /** `tokenize` yields no token exactly for an empty or blank line. */
  lemma TokenizeBlank(line: string)
    ensures Tokenize(line) == [] <==> AllSpace(line)
  {
    WordsBlank(line);
  }

  // ---------------------------------------------------------------------
  // to_string

  lemma {:induction false} SpacedJoin(ts: seq<Token>)
    requires ts != []
    ensures Spaced(ts) == JoinWith(Renders(ts), " ") + " "
    decreases |ts|
  {
    if |ts| > 1 {
      SpacedJoin(ts[1..]);
      assert Renders(ts)[1..] == Renders(ts[1..]);
      JoinCons(Render(ts[0]), Renders(ts[1..]), " ");
      assert Renders(ts) == [Render(ts[0])] + Renders(ts[1..]);
    } else {
      assert Spaced(ts[1..]) == "";
    }
  }

  /** `to_string` joins the printed tokens with single spaces whenever the
      first does not start, and the last does not end, with whitespace;
      an empty list prints as the empty text. */
  lemma ToStringJoin(ts: seq<Token>)
    requires ts != [] ==> var f, l := Render(ts[0]), Render(ts[|ts| - 1]);
      f != [] && !IsSpace(f[0]) && l != [] && !IsSpace(l[|l| - 1])
    ensures ToString(ts) == JoinWith(Renders(ts), " ")
  {
    if ts != [] {
      SpacedJoin(ts);
      var rs := Renders(ts);
      JoinFirst(rs, " ");
      JoinLast(rs, " ");
      var j := JoinWith(rs, " ");
      assert Spaced(ts) == [] + j + " ";
      StripPadded([], j, " ");
    }
  }

  /** A list of well-formed tokens prints as its printed tokens joined by
      single spaces. */
  lemma ToStringWellFormed(ts: seq<Token>)
    requires forall i :: 0 <= i < |ts| ==> WellFormed(ts[i])
    ensures ToString(ts) == JoinWith(Renders(ts), " ")
    ensures forall i :: 0 <= i < |ts| ==> Renders(ts)[i] != [] && NoSpace(Renders(ts)[i])
  {
    forall i | 0 <= i < |ts| ensures Renders(ts)[i] != [] && NoSpace(Renders(ts)[i]) {
      RenderWellFormed(ts[i]);
    }
    if ts != [] {
      assert Renders(ts)[0] == Render(ts[0]);
      assert Renders(ts)[|ts| - 1] == Render(ts[|ts| - 1]);
    }
    ToStringJoin(ts);
  }

  // ---------------------------------------------------------------------
  // Round trips

  /** Printing a parsed line gives the line with its whitespace runs
      collapsed to single spaces and its ends trimmed. */
  lemma RoundTrip(line: string)
    ensures ToString(Tokenize(line)) == Normalize(line)
  {
    var ts := Tokenize(line);
    TokenizeFragments(line);
    TokenizeWellFormed(line);
    ToStringWellFormed(ts);
    assert Renders(ts) == Words(line);
    NormalizeWords(line);
  }

  /** A single-spaced line is printed back exactly. */
  lemma RoundTripExact(line: string)
    requires SingleSpaced(line)
    ensures ToString(Tokenize(line)) == line
  {
    RoundTrip(line);
    NormalizeSingleSpaced(line);
  }

  /** Parsing printed well-formed tokens gives the same tokens back. */
  lemma ParseRoundTrip(ts: seq<Token>)
    requires forall i :: 0 <= i < |ts| ==> WellFormed(ts[i])
    ensures Tokenize(ToString(ts)) == ts
  {
    ToStringWellFormed(ts);
    WordsOfJoin(Renders(ts));
    forall i | 0 <= i < |ts| ensures ParseFragment(Renders(ts)[i]) == ts[i] {
      ParseRender(ts[i]);
    }
  }
}
