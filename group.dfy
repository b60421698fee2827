/** The `ToggleGroup` class (index.ts:5-234): an ordered, key-unique list of
    records that its methods update in place. Each method is proved against
    the matching function of module Records. */
module Group {
  import opened Records

  class ToggleGroup {
    /** The private list `_toggles` (index.ts:11). */
    var items: seq<Records.Toggle>

    /** The object invariant: no two records share a key. */
    ghost predicate Valid()
      reads this
    {
      DistinctKeys(items)
    }

    /** `new ToggleGroup(toggles, initalValue)` (index.ts:18-28): each item in
        turn becomes a record and is appended unless its key is present. */
    constructor (input: seq<Item>, initialValue: bool)
      ensures items == Build(input, initialValue)
      ensures Valid()
    {
      items := [];
      new;
      for i := 0 to |input|
        invariant items == InsertAll([], ItemToggles(input[..i], initialValue))
      {
        var t := ItemToggle(input[i], initialValue);
        if Find(items, t.key).None? {
          items := items + [t];
        }
        assert ItemToggles(input[..i + 1], initialValue)
            == ItemToggles(input[..i], initialValue) + [t];
      }
      assert input[..|input|] == input;
      InsertAllDistinct([], ItemToggles(input, initialValue));
    }

    /** The `toggles` getter (index.ts:222-224): a copy of the list. */
    function Toggles(): seq<Records.Toggle>
      reads this
    {
      items
    }

    /** The `toggles` setter (index.ts:231-233): replaces the list as given,
        without deduplication, so the invariant holds afterwards exactly when
        the new list has distinct keys. */
    method SetToggles(ts: seq<Records.Toggle>)
      modifies this
      ensures items == ts
      ensures Valid() <==> DistinctKeys(ts)
    {
      items := ts;
    }

    /** `getValue` (index.ts:129-132). */
    function GetValue(key: string): Option<bool>
      reads this
    {
      ValueOf(items, key)
    }

    /** `getOpenCount` (index.ts:102-104). */
    function GetOpenCount(): nat
      reads this
    {
      Count(items, true)
    }

    /** `getCloseCount` (index.ts:94-96). */
    function GetCloseCount(): nat
      reads this
    {
      Count(items, false)
    }

    /** The `openKeys` getter (index.ts:158-160). */
    function OpenKeys(): seq<string>
      reads this
    {
      KeysWith(items, true)
    }

    /** The `closedKeys` getter (index.ts:78-80). */
    function ClosedKeys(): seq<string>
      reads this
    {
      KeysWith(items, false)
    }

    /** `createToggle(keys, initalValue)` (index.ts:37-54): first the new
        records are collected, then each is appended unless its key is
        already present. */
    method CreateToggle(keys: KeyArg, initialValue: bool)
      modifies this
      ensures items == Create(old(items), keys, initialValue)
      ensures old(Valid()) ==> Valid()
    {
      var ks := KeyList(keys);
      var pending: seq<Records.Toggle> := [];
      for i := 0 to |ks|
        invariant pending == NewToggles(ks[..i], initialValue)
      {
        pending := pending + [Records.Toggle(ks[i], initialValue)];
      }
      assert ks[..|ks|] == ks;
      ghost var start := items;
      for i := 0 to |pending|
        invariant items == InsertAll(start, pending[..i])
      {
        var t := pending[i];
        if Find(items, t.key).None? {
          items := items + [t];
        }
        assert pending[..i + 1][..i] == pending[..i];
      }
      assert pending[..|pending|] == pending;
      if DistinctKeys(start) {
        InsertAllDistinct(start, pending);
      }
    }

    /** `getToggle(key)` (index.ts:110-122): the first record with the key,
        or a new closed record for it. The new record is pushed onto the
        getter's copy, not onto the list, so the group is left unchanged
        (no `modifies` clause). */
    method GetToggle(key: string) returns (t: Records.Toggle)
      ensures t.key == key
      ensures HasKey(items, key) ==> t in items && ValueOf(items, key) == Some(t.value)
      ensures !HasKey(items, key) ==> t == Records.Toggle(key, false)
    {
      var copy := Toggles();
      match Find(copy, key)
      case Some(i) =>
        t := copy[i];
      case None =>
        t := Records.Toggle(key, false);
        copy := copy + [t];
    }

    /** `setValue(key, value)` (index.ts:181-195): the first record with the
        key takes the value (the copy shares its element objects with the
        list); on a miss the new record goes onto the copy and is lost. */
    method SetValue(key: string, value: bool)
      modifies this
      ensures items == Assign(old(items), key, value)
      ensures old(Valid()) ==> Valid()
    {
      var copy := Toggles();
      match Find(copy, key)
      case Some(i) =>
        items := items[i := Records.Toggle(key, value)];
      case None =>
        copy := copy + [Records.Toggle(key, value)];
    }

    /** `open(key)`: `setValue(key, true)` (index.ts:140-142). */
    method Open(key: string)
      modifies this
      ensures items == Assign(old(items), key, true)
      ensures old(Valid()) ==> Valid()
    {
      SetValue(key, true);
    }

    /** `close(key)`: `setValue(key, false)` (index.ts:61-63). */
    method Close(key: string)
      modifies this
      ensures items == Assign(old(items), key, false)
      ensures old(Valid()) ==> Valid()
    {
      SetValue(key, false);
    }

    /** `toggle(key)` (index.ts:202-216): the first record with the key flips
        its value; on a miss the new open record goes onto the copy and is
        lost. */
    method Toggle(key: string)
      modifies this
      ensures items == Flip(old(items), key)
      ensures old(Valid()) ==> Valid()
    {
      var copy := Toggles();
      match Find(copy, key)
      case Some(i) =>
        items := items[i := Records.Toggle(key, !copy[i].value)];
      case None =>
        copy := copy + [Records.Toggle(key, true)];
    }

    /** `setAll(value)` (index.ts:167-173): a loop over the getter's copy
        assigning each shared record's value. */
    method SetAll(value: bool)
      modifies this
      ensures items == AssignAll(old(items), value)
      ensures old(Valid()) ==> Valid()
    {
      var copy := Toggles();
      for i := 0 to |copy|
        invariant |items| == |copy|
        invariant forall j :: 0 <= j < i ==> items[j] == Records.Toggle(copy[j].key, value)
        invariant forall j :: i <= j < |copy| ==> items[j] == copy[j]
      {
        items := items[i := Records.Toggle(copy[i].key, value)];
      }
      AssignAllCounts(old(items), value);
    }

    /** `openAll()`: `setAll(true)` (index.ts:150-152). */
    method OpenAll()
      modifies this
      ensures items == AssignAll(old(items), true)
      ensures old(Valid()) ==> Valid()
    {
      SetAll(true);
    }

    /** `closeAll()`: `setAll(false)` (index.ts:70-72). */
    method CloseAll()
      modifies this
      ensures items == AssignAll(old(items), false)
      ensures old(Valid()) ==> Valid()
    {
      SetAll(false);
    }

    /** `dropOpen(key)`: `setAll(false)` then `open(key)` (index.ts:86-88). */
    method DropOpen(key: string)
      modifies this
      ensures items == Records.DropOpen(old(items), key)
      ensures old(Valid()) ==> Valid()
    {
      SetAll(false);
      Open(key);
    }
  }
}
