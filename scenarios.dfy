/** The repository's test fixtures, stated as facts about the model: the
    default Raspberry Pi command line as a token list, and the effect on
    that list of the `add_param` calls the tests make through `after`. */
module Scenarios {
  import opened Text
  import opened Tokens
  import opened Params

  /** The default token list of the tests. */
  const DefaultParams: seq<Token> := [
    Token("console", Vals(["serial0", "115200"])),
    Token("console", Vals(["tty1"])),
    Token("root", Vals(["PARTUUID=0f6fe73a-02"])),
    Token("rootfstype", Vals(["ext4"])),
    Token("fsck.repair", Vals(["yes"])),
    Token("rootwait", Atom)
  ]

  /** The default line of the tests, fragment by fragment. */
  const DefaultFragments: seq<string> := [
    "console=serial0,115200", "console=tty1", "root=PARTUUID=0f6fe73a-02",
    "rootfstype=ext4", "fsck.repair=yes", "rootwait"
  ]

  /** Printable ASCII other than the space. */
  predicate Visible(s: string) {
    forall j :: 0 <= j < |s| ==> '!' <= s[j] <= '~'
  }

  /** A key with values, all printable ASCII, without `=` in the key and
      without `,` in a value, makes a well-formed token. */
  lemma VisibleWellFormed(key: string, vs: seq<string>)
    requires Visible(key) && '=' !in key && vs != []
    requires forall j :: 0 <= j < |vs| ==> Visible(vs[j]) && ',' !in vs[j]
    ensures WellFormed(Token(key, Vals(vs)))
  {
  }

  lemma SerialConsoleWellFormed() ensures WellFormed(DefaultParams[0]) {
    VisibleWellFormed("console", ["serial0", "115200"]);
  }
  lemma TtyConsoleWellFormed() ensures WellFormed(DefaultParams[1]) {
    VisibleWellFormed("console", ["tty1"]);
  }
  lemma RootWellFormed() ensures WellFormed(DefaultParams[2]) {
    VisibleWellFormed("root", ["PARTUUID=0f6fe73a-02"]);
  }
  lemma RootFsTypeWellFormed() ensures WellFormed(DefaultParams[3]) {
    VisibleWellFormed("rootfstype", ["ext4"]);
  }
  lemma FsckRepairWellFormed() ensures WellFormed(DefaultParams[4]) {
    VisibleWellFormed("fsck.repair", ["yes"]);
  }
  lemma RootWaitWellFormed() ensures WellFormed(DefaultParams[5]) {
  }

  /** Every token of the default list is one that `tokenize` can produce. */
  lemma DefaultWellFormed()
    ensures forall i :: 0 <= i < |DefaultParams| ==> WellFormed(DefaultParams[i])
  {
    SerialConsoleWellFormed();
    TtyConsoleWellFormed();
    RootWellFormed();
    RootFsTypeWellFormed();
    FsckRepairWellFormed();
    RootWaitWellFormed();
  }

  /** The default token list prints as the default fragments joined by
      single spaces, and that line parses back to the default token list. */
  lemma DefaultRoundTrip()
    ensures ToString(DefaultParams) == JoinWith(DefaultFragments, " ")
    ensures Tokenize(ToString(DefaultParams)) == DefaultParams
  {
    DefaultWellFormed();
    ToStringWellFormed(DefaultParams);
    FixtureRenders();
    ParseRoundTrip(DefaultParams);
  }

  lemma SerialConsoleRender() ensures Render(DefaultParams[0]) == DefaultFragments[0] {
    JoinCons("serial0", ["115200"], ",");
    assert JoinWith(["serial0", "115200"], ",") == "serial0,115200";
    assert Render(DefaultParams[0]) == "console" + "=" + "serial0,115200";
  }
  lemma TtyConsoleRender() ensures Render(DefaultParams[1]) == DefaultFragments[1] {}
  lemma RootRender() ensures Render(DefaultParams[2]) == DefaultFragments[2] {
    assert Render(DefaultParams[2]) == "root" + "=" + "PARTUUID=0f6fe73a-02";
  }
  lemma RootFsTypeRender() ensures Render(DefaultParams[3]) == DefaultFragments[3] {}
  lemma FsckRepairRender() ensures Render(DefaultParams[4]) == DefaultFragments[4] {}

  /** The default tokens print as the default fragments. */
  lemma FixtureRenders()
    ensures Renders(DefaultParams) == DefaultFragments
  {
    SerialConsoleRender();
    TtyConsoleRender();
    RootRender();
    RootFsTypeRender();
    FsckRepairRender();
  }

  /** `testKey=testVal` after `root` lands at index 3. */
  lemma AfterRoot()
    ensures AddParamSpec(DefaultParams, "testKey", Vals(["testVal"]), Some("root"), true)
         == DefaultParams[..3] + [Token("testKey", Vals(["testVal"]))] + DefaultParams[3..]
  {
    assert !HasParam(DefaultParams, "testKey");
    assert LastKeyIndex(DefaultParams, "root") == 2;
  }

  /** The first unique call for `modules-load` appends a new token. */
  lemma FirstModulesLoad()
    ensures AddParamSpec(DefaultParams, "modules-load", Vals(["dwc2"]), Some("rootwait"), true)
         == DefaultParams + [Token("modules-load", Vals(["dwc2"]))]
  {
    assert !HasParam(DefaultParams, "modules-load");
    assert LastKeyIndex(DefaultParams, "rootwait") == 5;
  }

  /** A second unique call for `modules-load` merges into that token, which
      then holds both values. */
  lemma Uniqueness()
    ensures var once := DefaultParams + [Token("modules-load", Vals(["dwc2"]))];
      && !MergeFails(once, "modules-load", Vals(["g_ether"]), true)
      && AddParamSpec(once, "modules-load", Vals(["g_ether"]), Some("rootwait"), true)
         == DefaultParams + [Token("modules-load", Vals(["dwc2", "g_ether"]))]
  {
    var once := DefaultParams + [Token("modules-load", Vals(["dwc2"]))];
    assert once[6].key == "modules-load";
    assert MergeValues(["dwc2"], ["g_ether"]) == ["dwc2", "g_ether"];
  }

  /** A unique `modules-load` atom after `rootwait` is added once, at the end. */
  lemma AtomUniqueness()
    ensures AddParamSpec(DefaultParams, "modules-load", Atom, Some("rootwait"), true)
         == DefaultParams + [Token("modules-load", Atom)]
  {
    assert !HasParam(DefaultParams, "modules-load");
    assert LastKeyIndex(DefaultParams, "rootwait") == 5;
  }

  /** Two non-unique atoms for the same key are both kept. */
  lemma AtomNonUniqueness()
    ensures var once := AddParamSpec(DefaultParams, "modules-load", Atom, Some("rootwait"), false);
      AddParamSpec(once, "modules-load", Atom, Some("rootwait"), false)
        == DefaultParams + [Token("modules-load", Atom), Token("modules-load", Atom)]
  {
    assert LastKeyIndex(DefaultParams, "rootwait") == 5;
    var once := AddParamSpec(DefaultParams, "modules-load", Atom, Some("rootwait"), false);
    assert once == DefaultParams + [Token("modules-load", Atom)];
    assert LastKeyIndex(once, "rootwait") == 5;
  }

  /** Two non-unique calls with different values make two tokens, each
      holding only its own value. */
  lemma NonUniqueness()
    ensures var once := AddParamSpec(DefaultParams, "modules-load", Vals(["dwc2"]), Some("rootwait"), false);
      AddParamSpec(once, "modules-load", Vals(["g_ether"]), Some("rootwait"), false)
        == DefaultParams + [Token("modules-load", Vals(["g_ether"])), Token("modules-load", Vals(["dwc2"]))]
  {
    assert LastKeyIndex(DefaultParams, "rootwait") == 5;
    var once := AddParamSpec(DefaultParams, "modules-load", Vals(["dwc2"]), Some("rootwait"), false);
    assert once == DefaultParams + [Token("modules-load", Vals(["dwc2"]))];
    assert LastKeyIndex(once, "rootwait") == 5;
  }

  /** Appending a well-formed token to a non-empty well-formed list adds its
      printed form after one space. */
  lemma AppendOne(ts: seq<Token>, t: Token)
    requires ts != [] && WellFormed(t)
    requires forall i :: 0 <= i < |ts| ==> WellFormed(ts[i])
    ensures ToString(ts + [t]) == ToString(ts) + " " + Render(t)
  {
    ToStringWellFormed(ts);
    ToStringWellFormed(ts + [t]);
    assert Renders(ts + [t]) == Renders(ts) + [Render(t)];
    JoinAppend(Renders(ts), Render(t), " ");
  }

  /** A new key placed after the key of the last token is printed last,
      after one space. */
  lemma PrintedLast(ts: seq<Token>, key: string, values: Value, unique: bool)
    requires ts != [] && WellFormed(Token(key, values))
    requires forall i :: 0 <= i < |ts| ==> WellFormed(ts[i])
    requires !unique || !HasParam(ts, key)
    ensures var r := AddParamSpec(ts, key, values, Some(ts[|ts| - 1].key), unique);
      ToString(r) == ToString(ts) + " " + Render(Token(key, values))
  {
    var a := ts[|ts| - 1].key;
    assert LastKeyIndex(ts, a) == |ts| - 1;
    assert AddParamSpec(ts, key, values, Some(a), unique) == ts + [Token(key, values)];
    AppendOne(ts, Token(key, values));
  }

  /** `quiet` after `rootwait` goes last. */
  lemma QuietAfterRootwait()
    ensures AddParamSpec(DefaultParams, "quiet", Atom, Some("rootwait"), true)
         == DefaultParams + [Token("quiet", Atom)]
  {
    assert !HasParam(DefaultParams, "quiet");
    assert LastKeyIndex(DefaultParams, "rootwait") == 5;
  }

  /** `modules-load=dwc2,g_ether` after `rootwait` goes last. */
  lemma ModulesAfterRootwait()
    ensures AddParamSpec(DefaultParams, "modules-load", Vals(["dwc2", "g_ether"]), Some("rootwait"), true)
         == DefaultParams + [Token("modules-load", Vals(["dwc2", "g_ether"]))]
  {
    assert !HasParam(DefaultParams, "modules-load");
    assert LastKeyIndex(DefaultParams, "rootwait") == 5;
  }

  /** An empty value list prints as `key=`, which parses back as one empty
      value: the printed form does not tell the two apart. */
  lemma EmptyValueList(k: string)
    requires '=' !in k
    ensures Render(Token(k, Vals([]))) == k + "="
    ensures ParseFragment(Render(Token(k, Vals([])))) == Token(k, Vals([""]))
  {
    var w := k + "=";
    assert w[|k|] == '=';
    assert forall n :: 0 <= n < |k| ==> w[n] == k[n];
    assert FirstIndex(w, '=') == |k|;
    assert w[..|k|] == k;
    assert w[|k| + 1..] == "";
  }

  /** The token list object driven through `add_param` as the tests do. */
  method Harness() {
    var p := new ParamList(DefaultParams);
    p.AddParam("testKey", Vals(["testVal"]), Some("root"), true);
    AfterRoot();
    assert p.tokens[3] == Token("testKey", Vals(["testVal"]));
    AddParamIdempotent(DefaultParams, "testKey", Vals(["testVal"]), Some("root"));
    p.AddParam("testKey", Vals(["testVal"]), Some("root"), true);
    assert p.tokens[3] == Token("testKey", Vals(["testVal"]));
  }
}
