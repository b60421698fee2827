/** The data of the usage scenarios in src/toggle-group.spec.ts: the
    initial records and what each step turns them into. */
module ScenarioData {
  import opened Records

  /** The six-record group the count scenarios start from. */
  function SixItems(): seq<Item> {
    [ RecordItem(Toggle("good", false)), RecordItem(Toggle("bad", true)),
      RecordItem(Toggle("good1", false)), RecordItem(Toggle("bad1", true)),
      RecordItem(Toggle("good2", false)), RecordItem(Toggle("bad2", true)) ]
  }

  /** The six records as a list. */
  function Six(): seq<Toggle> {
    [ Toggle("good", false), Toggle("bad", true),
      Toggle("good1", false), Toggle("bad1", true),
      Toggle("good2", false), Toggle("bad2", true) ]
  }

  /** Their keys being distinct, the six records are stored as given. */
  lemma BuildSix()
    ensures Build(SixItems(), false) == Six()
  {
    assert ItemToggles(SixItems(), false) == Six();
    assert DistinctKeys([] + Six());
    InsertAllNew([], Six());
    assert [] + Six() == Six();
  }

  /** The six records with `sad` closed and `happy` open appended. */
  function Eight(): seq<Toggle> {
    [ Toggle("good", false), Toggle("bad", true),
      Toggle("good1", false), Toggle("bad1", true),
      Toggle("good2", false), Toggle("bad2", true),
      Toggle("sad", false), Toggle("happy", true) ]
  }

  /** The eight records with open `happy1` and `sad1` appended: what the
      three creations of the count scenarios leave. */
  function Ten(): seq<Toggle> {
    [ Toggle("good", false), Toggle("bad", true),
      Toggle("good1", false), Toggle("bad1", true),
      Toggle("good2", false), Toggle("bad2", true),
      Toggle("sad", false), Toggle("happy", true),
      Toggle("happy1", true), Toggle("sad1", true) ]
  }

  /** `createToggle('sad')` on the six records appends a closed `sad`. */
  lemma CreateSad()
    ensures Create(Six(), OneKey("sad"), false) == Six() + [Toggle("sad", false)]
  {
  }

  /** `createToggle('happy', true)` then appends an open `happy`. */
  lemma CreateHappy()
    ensures Create(Six() + [Toggle("sad", false)], OneKey("happy"), true) == Eight()
  {
    var seven := Six() + [Toggle("sad", false)];
    assert NewToggles(["happy"], true) == [Toggle("happy", true)];
    assert !HasKey(seven, "happy");
    assert InsertAll(seven, [Toggle("happy", true)])
        == AddIfAbsent(InsertAll(seven, []), Toggle("happy", true));
  }

  /** `createToggle(['happy', 'sad', 'happy1', 'sad1'], true)` then leaves
      `happy` and `sad` alone and appends open `happy1` and `sad1`. */
  lemma CreateFour()
    ensures Create(Eight(), ManyKeys(["happy", "sad", "happy1", "sad1"]), true) == Ten()
  {
    var present, absent := [Toggle("happy", true), Toggle("sad", true)], [Toggle("happy1", true), Toggle("sad1", true)];
    FourKeysSplit();
    InsertAllConcat(Eight(), present, absent);
    FourKeysPresent();
    FourKeysAbsent();
  }

  /** The four records asked for: two with keys present, two with new keys. */
  lemma FourKeysSplit()
    ensures NewToggles(["happy", "sad", "happy1", "sad1"], true)
            == [Toggle("happy", true), Toggle("sad", true)] + [Toggle("happy1", true), Toggle("sad1", true)]
  {
  }

  /** `happy` and `sad` are present among the eight records. */
  lemma FourKeysPresent()
    ensures InsertAll(Eight(), [Toggle("happy", true), Toggle("sad", true)]) == Eight()
  {
    assert Eight()[7].key == "happy" && Eight()[6].key == "sad";
    InsertAllPresent(Eight(), [Toggle("happy", true), Toggle("sad", true)]);
  }

  /** `happy1` and `sad1` are new. */
  lemma FourKeysAbsent()
    ensures InsertAll(Eight(), [Toggle("happy1", true), Toggle("sad1", true)]) == Ten()
  {
    TenDistinct();
    assert Eight() + [Toggle("happy1", true), Toggle("sad1", true)] == Ten();
    InsertAllNew(Eight(), [Toggle("happy1", true), Toggle("sad1", true)]);
  }

  /** The keys of the ten records are pairwise distinct. */
  lemma TenDistinct()
    ensures DistinctKeys(Ten())
  {
  }

  /** The second record with key `good` is dropped. */
  lemma BuildDuplicate()
    ensures Build([RecordItem(Toggle("good", true)), RecordItem(Toggle("good", true))], false)
            == [Toggle("good", true)]
  {
    var s := [Toggle("good", true), Toggle("good", true)];
    assert ItemToggles([RecordItem(Toggle("good", true)), RecordItem(Toggle("good", true))], false) == s;
    assert s[..1] == [Toggle("good", true)];
    assert InsertAll([], s[..1]) == [Toggle("good", true)];
  }

  /** Bare keys `good` and `bad` with initial value `false`. */
  lemma BuildTwoKeys()
    ensures Build([KeyItem("good"), KeyItem("bad")], false) == [Toggle("good", false), Toggle("bad", false)]
  {
    var s := [Toggle("good", false), Toggle("bad", false)];
    assert ItemToggles([KeyItem("good"), KeyItem("bad")], false) == s;
    assert DistinctKeys([] + s);
    InsertAllNew([], s);
    assert [] + s == s;
  }

  /** `dropOpen('good1')` on the ten records leaves one open, nine closed. */
  lemma DropGood1()
    ensures Count(Records.DropOpen(Ten(), "good1"), true) == 1
    ensures Count(Records.DropOpen(Ten(), "good1"), false) == 9
  {
    TenDistinct();
    assert Ten()[2].key == "good1";
    DropOpenSpec(Ten(), "good1");
  }

  /** `setAll` on the two closed records `good` and `bad`. */
  lemma TwoKeysAll(v: bool)
    ensures AssignAll([Toggle("good", false), Toggle("bad", false)], v) == [Toggle("good", v), Toggle("bad", v)]
    ensures AssignAll([Toggle("good", v), Toggle("bad", v)], !v) == [Toggle("good", !v), Toggle("bad", !v)]
  {
  }

  /** The open keys of the six records. */
  lemma SixOpenKeys()
    ensures KeysWith(Six(), true) == ["bad", "bad1", "bad2"]
  {
  }

  /** The closed keys of the six records. */
  lemma SixClosedKeys()
    ensures KeysWith(Six(), false) == ["good", "good1", "good2"]
  {
  }
}

/** The usage scenarios of src/toggle-group.spec.ts, written as clients of
    `ToggleGroup` whose postconditions state the expected observations. */
module Scenarios {
  import opened Records
  import opened Group
  import opened ScenarioData

  /** Two records with the same key give a group of one record. */
  method DuplicateInput() returns (n: nat, v: Option<bool>)
    ensures n == 1 && v == Some(true)
  {
    BuildDuplicate();
    var g := new ToggleGroup([RecordItem(Toggle("good", true)), RecordItem(Toggle("good", true))], false);
    n := |g.Toggles()|;
    v := g.GetValue("good");
  }

  /** `open` and `close` on present keys are seen by `getValue`. */
  method OpenClose() returns (v1: Option<bool>, v2: Option<bool>)
    ensures v1 == Some(true) && v2 == Some(false)
  {
    var t1 := new ToggleGroup([RecordItem(Toggle("good", false))], false);
    var t2 := new ToggleGroup([RecordItem(Toggle("bad", true))], false);
    t1.Open("good");
    v1 := t1.GetValue("good");
    t2.Close("bad");
    v2 := t2.GetValue("bad");
  }

  /** `openAll` opens and `closeAll` closes every key of a group built from
      bare keys. */
  method OpenCloseAll() returns (afterOpen: seq<Option<bool>>, afterClose: seq<Option<bool>>)
    ensures afterOpen == [Some(true), Some(true)]
    ensures afterClose == [Some(false), Some(false)]
  {
    BuildTwoKeys();
    var t1 := new ToggleGroup([KeyItem("good"), KeyItem("bad")], false);
    TwoKeysAll(true);
    t1.OpenAll();
    afterOpen := [t1.GetValue("good"), t1.GetValue("bad")];
    t1.CloseAll();
    afterClose := [t1.GetValue("good"), t1.GetValue("bad")];
  }

  /** `setValue` on a present key is seen by `getValue`. */
  method SetGet() returns (v1: Option<bool>, v2: Option<bool>)
    ensures v1 == Some(true) && v2 == Some(false)
  {
    var t1 := new ToggleGroup([RecordItem(Toggle("good", false))], false);
    var t2 := new ToggleGroup([RecordItem(Toggle("bad", true))], false);
    t1.SetValue("good", true);
    v1 := t1.GetValue("good");
    t2.SetValue("bad", false);
    v2 := t2.GetValue("bad");
  }

  /** On a miss, `setValue`, `toggle` and `getToggle` leave the group as it
      was: `getValue` still reports the key absent. */
  method MissIsLost() returns (v: Option<bool>, t: Toggle, n: nat)
    ensures v == None && t == Toggle("new", false) && n == 1
  {
    var g := new ToggleGroup([KeyItem("good")], false);
    g.SetValue("new", true);
    g.Toggle("new");
    t := g.GetToggle("new");
    v := g.GetValue("new");
    n := |g.Toggles()|;
  }

  /** A group built from the six records. */
  method NewSix() returns (g: ToggleGroup)
    ensures fresh(g)
    ensures g.items == Six()
  {
    BuildSix();
    g := new ToggleGroup(SixItems(), false);
  }

  /** The six records plus `createToggle('sad')`, `createToggle('happy', true)`
      and `createToggle(['happy', 'sad', 'happy1', 'sad1'], true)`. */
  method CreateSix() returns (g: ToggleGroup)
    ensures fresh(g)
    ensures g.items == Ten()
  {
    CreateSad();
    CreateHappy();
    CreateFour();
    g := NewSix();
    g.CreateToggle(OneKey("sad"), false);
    g.CreateToggle(OneKey("happy"), true);
    g.CreateToggle(ManyKeys(["happy", "sad", "happy1", "sad1"]), true);
  }

  /** After the three creations: six open, four closed. */
  method CreateAndCount() returns (open: nat, closed: nat)
    ensures open == 6 && closed == 4
  {
    var g := CreateSix();
    open := g.GetOpenCount();
    closed := g.GetCloseCount();
  }

  /** After the three creations and `dropOpen('good1')`: one open, nine closed. */
  method CreateAndDropOpen() returns (open: nat, closed: nat)
    ensures open == 1 && closed == 9
  {
    var g := CreateSix();
    g.DropOpen("good1");
    DropGood1();
    open := g.GetOpenCount();
    closed := g.GetCloseCount();
  }

  /** On the six records the open keys are `bad`, `bad1` and `bad2`: three,
      `bad` among them and `good` not. */
  method OpenKeyList() returns (openKeys: seq<string>)
    ensures openKeys == ["bad", "bad1", "bad2"]
  {
    var g := NewSix();
    SixOpenKeys();
    openKeys := g.OpenKeys();
  }

  /** On the six records the closed keys are `good`, `good1` and `good2`:
      three, `good2` among them and `bad1` not. */
  method ClosedKeyList() returns (closedKeys: seq<string>)
    ensures closedKeys == ["good", "good1", "good2"]
  {
    var g := NewSix();
    SixClosedKeys();
    closedKeys := g.ClosedKeys();
  }
}
