/** `add_param`: editing the token list of a kernel command line in place,
    either by merging values into the tokens that already carry a key or by
    inserting one new token at the end or right after the last token with
    a given key. */
module Params {
  import opened Text
  import opened Tokens

  datatype Option<T> = None | Some(value: T)

  predicate Distinct(s: seq<string>) {
    forall a, b :: 0 <= a < b < |s| ==> s[a] != s[b]
  }

  // ---------------------------------------------------------------------
  // Merging values into one token

  /** The value list of a matching token after the inner merge loop has
      seen `vs`: each value is appended unless the list already holds it. */
  function MergeValues(cur: seq<string>, vs: seq<string>): seq<string>
    decreases |vs|
  {
    if vs == [] then cur
    else
      var m := MergeValues(cur, vs[..|vs| - 1]);
      if vs[|vs| - 1] in m then m else m + [vs[|vs| - 1]]
  }

  /** A token's value after a merge; an atom has no list to extend. */
  function MergeValue(v: Value, vs: seq<string>): Value {
    match v
    case Atom => Atom
    case Vals(cur) => Vals(MergeValues(cur, vs))
  }

  /** One token after the outer merge loop has visited it. */
  function MergedToken(t: Token, key: string, values: Value): Token {
    if t.key == key && values.Vals? then Token(t.key, MergeValue(t.value, values.vals)) else t
  }

  function Merged(ts: seq<Token>, key: string, values: Value): seq<Token> {
    seq(|ts|, i requires 0 <= i < |ts| => MergedToken(ts[i], key, values))
  }

  /** The merge would test `value not in None`, which raises in Python:
      a unique merge of at least one value into a key that some atom carries. */
  predicate MergeFails(ts: seq<Token>, key: string, values: Value, unique: bool) {
    && unique && values.Vals? && values.vals != []
    && exists i :: 0 <= i < |ts| && ts[i].key == key && ts[i].value.Atom?
  }

  // ---------------------------------------------------------------------
  // Placing a new token

  /** Index of the last token whose key is `a`, or -1 when there is none. */
  function LastKeyIndex(ts: seq<Token>, a: string): (j: int)
    ensures -1 <= j < |ts|
    ensures j >= 0 ==> ts[j].key == a
    ensures forall k :: j < k < |ts| ==> ts[k].key != a
  {
    if ts == [] then -1
    else if ts[|ts| - 1].key == a then |ts| - 1
    else LastKeyIndex(ts[..|ts| - 1], a)
  }

  /** Where a new token goes: right after the last token whose key is
      `after`, or at the end when `after` is absent or matches no token. */
  function InsertionPoint(ts: seq<Token>, after: Option<string>): (p: nat)
    ensures p <= |ts|
    ensures after.Some? && HasParam(ts, after.value) ==>
      0 < p && ts[p - 1].key == after.value && forall k :: p <= k < |ts| ==> ts[k].key != after.value
    ensures !(after.Some? && HasParam(ts, after.value)) ==> p == |ts|
  {
    match after
    case None => |ts|
    case Some(a) =>
      var j := LastKeyIndex(ts, a);
      if j >= 0 then j + 1 else |ts|
  }

  /** Python's `list.insert(p, x)` for an index within the list. */
  function InsertAt<T>(s: seq<T>, p: nat, x: T): seq<T>
    requires p <= |s|
  {
    s[..p] + [x] + s[p..]
  }

  // ---------------------------------------------------------------------
  // The whole of add_param

  /** The token list after `add_param(ts, key, values, after, unique)`. */
  function AddParamSpec(ts: seq<Token>, key: string, values: Value, after: Option<string>, unique: bool): seq<Token>
    requires !MergeFails(ts, key, values, unique)
  {
    if unique && HasParam(ts, key) then Merged(ts, key, values)
    else InsertAt(ts, InsertionPoint(ts, after), Token(key, values))
  }

  // ---------------------------------------------------------------------
  // The source's reverse / insert / reverse placement

  /** Python's `list.reverse()`, as a value. */
  function Reverse<T>(s: seq<T>): seq<T> {
    seq(|s|, i requires 0 <= i < |s| => s[|s| - 1 - i])
  }

  /** Index of the first token whose key is `a`, or `|ts|`. */
  function FirstKeyIndex(ts: seq<Token>, a: string): (i: nat)
    ensures i <= |ts|
    ensures forall k :: 0 <= k < i ==> ts[k].key != a
    ensures i < |ts| ==> ts[i].key == a
  {
    if ts == [] || ts[0].key == a then 0 else 1 + FirstKeyIndex(ts[1..], a)
  }

  /** The placement exactly as the source writes it: reverse the list,
      insert before the first match, reverse back; without a match,
      reverse back and append. */
  function AfterByReversal(ts: seq<Token>, a: string, t: Token): seq<Token> {
    var rev := Reverse(ts);
    var i := FirstKeyIndex(rev, a);
    if i < |rev| then Reverse(InsertAt(rev, i, t)) else Reverse(rev) + [t]
  }

  /** The elements of `InsertAt(s, p, x)`, by index. */
  lemma InsertAtIndex<T>(s: seq<T>, p: nat, x: T, k: nat)
    requires p <= |s| && k <= |s|
    ensures |InsertAt(s, p, x)| == |s| + 1
    ensures InsertAt(s, p, x)[k] == if k < p then s[k] else if k == p then x else s[k - 1]
  {
  }

  /** Reversing, inserting at `i` and reversing back inserts at `|s| - i`. */
  lemma ReverseInsert<T>(s: seq<T>, i: nat, t: T)
    requires i <= |s|
    ensures Reverse(InsertAt(Reverse(s), i, t)) == InsertAt(s, |s| - i, t)
  {
    var n := |s|;
    var rev := Reverse(s);
    var x := InsertAt(rev, i, t);
    var r := Reverse(x);
    var want := InsertAt(s, n - i, t);
    InsertAtIndex(s, n - i, t, 0);
    InsertAtIndex(rev, i, t, 0);
    assert |x| == n + 1;
    forall k | 0 <= k <= n ensures r[k] == want[k] {
      assert r[k] == x[n - k];
      InsertAtIndex(rev, i, t, n - k);
      InsertAtIndex(s, n - i, t, k);
      if k < n - i {
        assert x[n - k] == rev[n - k - 1];
      } else if k > n - i {
        assert x[n - k] == rev[n - k];
      }
    }
    assert |r| == |want|;
  }

  /** Reversing twice gives the list back. */
  lemma ReverseReverse<T>(s: seq<T>)
    ensures Reverse(Reverse(s)) == s
  {
  }

  /** The first match in the reversed list is the last match in the list. */
  lemma FirstOfReverse(ts: seq<Token>, a: string)
    ensures var i := FirstKeyIndex(Reverse(ts), a);
      InsertionPoint(ts, Some(a)) == |ts| - (if i < |ts| then i else 0)
  {
    var n := |ts|;
    var rev := Reverse(ts);
    var i := FirstKeyIndex(rev, a);
    if i < n {
      assert ts[n - 1 - i].key == a;
      assert forall m :: n - 1 - i < m < n ==> ts[m] == rev[n - 1 - m];
      assert LastKeyIndex(ts, a) == n - 1 - i;
    } else {
      assert forall m :: 0 <= m < n ==> ts[m] == rev[n - 1 - m];
      assert !HasParam(ts, a);
    }
  }

  /** With a match, reverse / insert / reverse back inserts right after
      the last token with key `a`. */
  lemma ReversalFound(ts: seq<Token>, a: string, t: Token)
    requires FirstKeyIndex(Reverse(ts), a) < |ts|
    ensures AfterByReversal(ts, a, t) == InsertAt(ts, InsertionPoint(ts, Some(a)), t)
  {
    var rev := Reverse(ts);
    var i := FirstKeyIndex(rev, a);
    FirstOfReverse(ts, a);
    assert AfterByReversal(ts, a, t) == Reverse(InsertAt(rev, i, t));
    ReverseInsert(ts, i, t);
  }

  /** Without a match, reversing back and appending puts the token at the end. */
  lemma ReversalMissing(ts: seq<Token>, a: string, t: Token)
    requires FirstKeyIndex(Reverse(ts), a) == |ts|
    ensures AfterByReversal(ts, a, t) == InsertAt(ts, InsertionPoint(ts, Some(a)), t)
  {
    FirstOfReverse(ts, a);
    ReverseReverse(ts);
    assert InsertAt(ts, |ts|, t) == ts + [t];
  }

  /** The reverse / insert / reverse placement puts the new token right
      after the last token with key `a`, or at the end without one. */
  lemma ReversalAgrees(ts: seq<Token>, a: string, t: Token)
    ensures AfterByReversal(ts, a, t) == InsertAt(ts, InsertionPoint(ts, Some(a)), t)
  {
    if FirstKeyIndex(Reverse(ts), a) < |ts| {
      ReversalFound(ts, a, t);
    } else {
      ReversalMissing(ts, a, t);
    }
  }

  // ---------------------------------------------------------------------
  // Properties of the merge

  lemma {:induction false} FirstIndexExtend(s: seq<string>, x: string, y: string)
    requires y in s
    ensures FirstIndex(s + [x], y) == FirstIndex(s, y)
  {
    var i := FirstIndex(s, y);
    var j := FirstIndex(s + [x], y);
    assert i < |s|;
    assert (s + [x])[i] == y;
    assert j <= i;
    assert j < |s| ==> s[j] == y;
  }

  /** What the inner merge loop does to one value list: the old values stay
      as a prefix; afterwards it holds exactly the old values and `vs`;
      every appended value is new to the old list; the appended values come
      in the order of their first occurrence in `vs`, each once; and a list
      without duplicates stays without duplicates. */
  lemma {:induction false} MergeValuesSpec(cur: seq<string>, vs: seq<string>)
    ensures var r := MergeValues(cur, vs);
      && |cur| <= |r| && r[..|cur|] == cur
      && (forall x :: x in r <==> x in cur || x in vs)
      && (forall k :: |cur| <= k < |r| ==> r[k] !in cur)
      && (forall a, b :: |cur| <= a < b < |r| ==> FirstIndex(vs, r[a]) < FirstIndex(vs, r[b]))
      && (Distinct(cur) ==> Distinct(r))
    decreases |vs|
  {
    if vs != [] {
      var init, x := vs[..|vs| - 1], vs[|vs| - 1];
      assert vs == init + [x];
      var m := MergeValues(cur, init);
      MergeValuesSpec(cur, init);
      var r := MergeValues(cur, vs);
      forall k | |cur| <= k < |m| ensures m[k] in init && FirstIndex(vs, m[k]) == FirstIndex(init, m[k]) {
        assert m[k] in m;
        FirstIndexExtend(init, x, m[k]);
      }
      if x !in m {
        assert r == m + [x];
        assert x !in init && x !in cur;
        assert FirstIndex(vs, x) == |init|;
        forall k | |cur| <= k < |m| ensures FirstIndex(vs, m[k]) < |init| {
          assert FirstIndex(init, m[k]) < |init|;
        }
        assert r[..|cur|] == m[..|cur|];
      }
    }
  }

  /** Merging values that are all held already changes nothing. */
  lemma {:induction false} MergeValuesHeld(cur: seq<string>, vs: seq<string>)
    requires forall x :: x in vs ==> x in cur
    ensures MergeValues(cur, vs) == cur
    decreases |vs|
  {
    if vs != [] {
      assert forall x :: x in vs[..|vs| - 1] ==> x in vs;
      MergeValuesHeld(cur, vs[..|vs| - 1]);
      assert vs[|vs| - 1] in vs;
    }
  }

  /** Merging the same values a second time changes nothing. */
  lemma MergeValuesIdempotent(cur: seq<string>, vs: seq<string>)
    ensures MergeValues(MergeValues(cur, vs), vs) == MergeValues(cur, vs)
  {
    MergeValuesSpec(cur, vs);
    MergeValuesHeld(MergeValues(cur, vs), vs);
  }

  // ---------------------------------------------------------------------
  // Properties of add_param

  /** A unique merge into a present key keeps the length, the order and
      every key; tokens with other keys are unchanged; a matching token with
      values gets them merged (see MergeValuesSpec), a matching atom stays. */
  lemma AddParamMerge(ts: seq<Token>, key: string, vs: seq<string>, after: Option<string>)
    requires HasParam(ts, key) && !MergeFails(ts, key, Vals(vs), true)
    ensures var r := AddParamSpec(ts, key, Vals(vs), after, true);
      && |r| == |ts|
      && (forall i :: 0 <= i < |ts| ==> r[i].key == ts[i].key)
      && (forall i :: 0 <= i < |ts| && ts[i].key != key ==> r[i] == ts[i])
      && (forall i :: 0 <= i < |ts| && ts[i].key == key && ts[i].value.Vals? ==>
            r[i].value == Vals(MergeValues(ts[i].value.vals, vs)))
      && (forall i :: 0 <= i < |ts| && ts[i].key == key && ts[i].value.Atom? ==> vs == [] && r[i] == ts[i])
  {
  }

  /** A unique atom (or an empty value list) for a key already present
      leaves the list as it was. */
  lemma AddParamAtomNoop(ts: seq<Token>, key: string, values: Value, after: Option<string>)
    requires HasParam(ts, key) && (values == Atom || values == Vals([]))
    ensures AddParamSpec(ts, key, values, after, true) == ts
  {
    var r := AddParamSpec(ts, key, values, after, true);
    forall i | 0 <= i < |ts| ensures r[i] == ts[i] {
      if ts[i].key == key && values.Vals? && ts[i].value.Vals? {
        assert MergeValues(ts[i].value.vals, []) == ts[i].value.vals;
      }
    }
  }

  /** Without a unique merge the list grows by exactly the new token, at
      the insertion point, and the old tokens keep their order around it. */
  lemma AddParamInsert(ts: seq<Token>, key: string, values: Value, after: Option<string>, unique: bool)
    requires !unique || !HasParam(ts, key)
    ensures !MergeFails(ts, key, values, unique)
    ensures var r := AddParamSpec(ts, key, values, after, unique); var p := InsertionPoint(ts, after);
      && |r| == |ts| + 1
      && r[p] == Token(key, values)
      && r[..p] + r[p + 1..] == ts
      && (after.Some? && HasParam(ts, after.value) ==> r[p - 1].key == after.value && forall k :: p < k < |r| ==> r[k].key != after.value)
      && (!(after.Some? && HasParam(ts, after.value)) ==> p == |ts|)
  {
    var r := AddParamSpec(ts, key, values, after, unique);
    var p := InsertionPoint(ts, after);
    assert r[..p] == ts[..p];
    assert r[p + 1..] == ts[p..];
    assert ts == ts[..p] + ts[p..];
    if after.Some? && HasParam(ts, after.value) {
      forall k | p < k < |r| ensures r[k].key != after.value {
        assert r[k] == ts[k - 1];
      }
    }
  }

  /** After `add_param` the key is present. */
  lemma AddParamHasKey(ts: seq<Token>, key: string, values: Value, after: Option<string>, unique: bool)
    requires !MergeFails(ts, key, values, unique)
    ensures HasParam(AddParamSpec(ts, key, values, after, unique), key)
  {
    var r := AddParamSpec(ts, key, values, after, unique);
    if unique && HasParam(ts, key) {
      var i :| 0 <= i < |ts| && ts[i].key == key;
      assert r[i].key == key;
    } else {
      var p := InsertionPoint(ts, after);
      assert r[p].key == key;
    }
  }

  /** With `unique`, repeating the same call changes nothing: the second
      call cannot fail, and it merges only values the first call placed. */
  lemma AddParamIdempotent(ts: seq<Token>, key: string, values: Value, after: Option<string>)
    requires !MergeFails(ts, key, values, true)
    ensures var r := AddParamSpec(ts, key, values, after, true);
      !MergeFails(r, key, values, true) && AddParamSpec(r, key, values, after, true) == r
  {
    var r := AddParamSpec(ts, key, values, after, true);
    AddParamHasKey(ts, key, values, after, true);
    if HasParam(ts, key) {
      forall i | 0 <= i < |r| && r[i].key == key && values.Vals? && values.vals != [] ensures r[i].value.Vals? {
        assert ts[i].key == key;
      }
      forall i | 0 <= i < |r| ensures MergedToken(r[i], key, values) == r[i] {
        if r[i].key == key && values.Vals? && ts[i].value.Vals? {
          MergeValuesIdempotent(ts[i].value.vals, values.vals);
        }
      }
    } else {
      var p := InsertionPoint(ts, after);
      forall i | 0 <= i < |r| && i != p ensures r[i].key != key {
        assert r[i] == if i < p then ts[i] else ts[i - 1];
      }
      forall i | 0 <= i < |r| ensures MergedToken(r[i], key, values) == r[i] {
        if i == p && values.Vals? {
          MergeValuesHeld(values.vals, values.vals);
        }
      }
    }
  }

  // ---------------------------------------------------------------------
  // The list that add_param edits in place

  /** The inner merge loop of `add_param` over one token's value list. */
  method MergeInto(cur: seq<string>, vs: seq<string>) returns (r: seq<string>)
    ensures r == MergeValues(cur, vs)
  {
    r := cur;
    var k := 0;
    while k < |vs|
      invariant 0 <= k <= |vs|
      invariant r == MergeValues(cur, vs[..k])
    {
      assert vs[..k + 1][..k] == vs[..k];
      if vs[k] !in r {
        r := r + [vs[k]];
      }
      k := k + 1;
    }
    assert vs[..|vs|] == vs;
  }

  /** The search for the last token whose key is `a`, from the end. */
  method FindLastKey(ts: seq<Token>, a: string) returns (j: int)
    ensures -1 <= j < |ts|
    ensures j >= 0 ==> ts[j].key == a
    ensures forall k :: j < k < |ts| ==> ts[k].key != a
  {
    j := |ts| - 1;
    while j >= 0 && ts[j].key != a
      invariant -1 <= j < |ts|
      invariant forall k :: j < k < |ts| ==> ts[k].key != a
    {
      j := j - 1;
    }
  }

  /** The token list that `add_param` receives and edits in place. */
  class ParamList {
    var tokens: seq<Token>

    constructor (initial: seq<Token>)
      ensures tokens == initial
    {
      tokens := initial;
    }

    /** The outer merge loop: every token carrying `key` gets `values`. */
    method MergeAll(key: string, values: Value)
      requires !MergeFails(tokens, key, values, true)
      modifies this
      ensures tokens == Merged(old(tokens), key, values)
    {
      ghost var before := tokens;
      var i := 0;
      while i < |tokens|
        invariant 0 <= i <= |tokens| == |before|
        invariant forall k :: 0 <= k < i ==> tokens[k] == MergedToken(before[k], key, values)
        invariant forall k :: i <= k < |tokens| ==> tokens[k] == before[k]
      {
        var pair := tokens[i];
        if pair.key == key && values.Vals? {
          match pair.value {
            case Atom =>
              assert values.vals == [];
            case Vals(cur) =>
              var merged := MergeInto(cur, values.vals);
              tokens := tokens[i := Token(pair.key, Vals(merged))];
          }
        }
        i := i + 1;
      }
    }

    /** `add_param(tokens, key, values, after, unique)`. */
    method AddParam(key: string, values: Value, after: Option<string>, unique: bool)
      requires !MergeFails(tokens, key, values, unique)
      modifies this
      ensures tokens == AddParamSpec(old(tokens), key, values, after, unique)
    {
      var added := Token(key, values);
      if unique && HasParam(tokens, key) {
        MergeAll(key, values);
      } else if after.None? {
        tokens := tokens + [added];
      } else {
        var j := FindLastKey(tokens, after.value);
        if j >= 0 {
          tokens := InsertAt(tokens, j + 1, added);
        } else {
          tokens := tokens + [added];
        }
      }
    }
  }
}
