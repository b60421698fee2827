/** The records of a toggle group and the value-level meaning of every
    operation of `ToggleGroup` (index.ts), stated over an ordered sequence of
    key/value records. The class in group.dfy is proved against these
    functions; the lemmas here state what the operations promise. */
module Records {

  /** A key/value pair (`IToggle`): the key names the toggle, the value says
      whether it is open (`true`) or closed (`false`). */
  datatype Toggle = Toggle(key: string, value: bool)

  /** The answer of a lookup that may miss (`undefined` in the source). */
  datatype Option<T> = None | Some(value: T)

  /** One item of the constructor's input: a bare key, or a full record. */
  datatype Item = KeyItem(key: string) | RecordItem(toggle: Toggle)

  /** The argument of `createToggle`: one key, or an array of keys. */
  datatype KeyArg = OneKey(key: string) | ManyKeys(keys: seq<string>)

  /** No two records share a key: the invariant of a toggle group. */
  ghost predicate DistinctKeys(ts: seq<Toggle>) {
    forall i, j :: 0 <= i < j < |ts| ==> ts[i].key != ts[j].key
  }

  /** Some record of `ts` has key `k`. */
  ghost predicate HasKey(ts: seq<Toggle>, k: string) {
    exists i :: 0 <= i < |ts| && ts[i].key == k
  }

  /** The set of keys that occur in `ts`. */
  ghost function KeySet(ts: seq<Toggle>): (ks: set<string>)
    ensures forall k :: k in ks <==> HasKey(ts, k)
  {
    if ts == [] then {}
    else
      var rest := KeySet(ts[1..]);
      assert forall k :: HasKey(ts, k) <==> k == ts[0].key || HasKey(ts[1..], k) by {
        forall k ensures HasKey(ts, k) <==> k == ts[0].key || HasKey(ts[1..], k) {
          if HasKey(ts[1..], k) {
            var i :| 0 <= i < |ts[1..]| && ts[1..][i].key == k;
            assert ts[i + 1].key == k;
          }
          if HasKey(ts, k) && k != ts[0].key {
            var i :| 0 <= i < |ts| && ts[i].key == k;
            assert ts[1..][i - 1].key == k;
          }
        }
      }
      {ts[0].key} + rest
  }

  /** `Array.prototype.find` on the key: the index of the FIRST record whose
      key is `k`, or `None` when there is none. */
  function Find(ts: seq<Toggle>, k: string): (r: Option<nat>)
    ensures r.None? <==> !HasKey(ts, k)
    ensures r.Some? ==> r.value < |ts| && ts[r.value].key == k
    ensures r.Some? ==> forall j :: 0 <= j < r.value ==> ts[j].key != k
  {
    if ts == [] then None
    else if ts[0].key == k then Some(0)
    else
      match Find(ts[1..], k)
      case None => None
      case Some(i) => Some(i + 1)
  }

  /** `getValue`: the value of the first record with key `k`, or `None`. */
  function ValueOf(ts: seq<Toggle>, k: string): (r: Option<bool>)
    ensures r.None? <==> !HasKey(ts, k)
    ensures r.Some? ==> exists i :: 0 <= i < |ts| && ts[i] == Toggle(k, r.value)
                                   && forall j :: 0 <= j < i ==> ts[j].key != k
  {
    match Find(ts, k)
    case None => None
    case Some(i) => Some(ts[i].value)
  }

  /** The first record with key `k`, or `None`. */
  function Lookup(ts: seq<Toggle>, k: string): (r: Option<Toggle>)
    ensures r.None? <==> !HasKey(ts, k)
    ensures r.Some? ==> r.value.key == k && r.value in ts
    ensures ValueOf(ts, k) == if r.Some? then Some(r.value.value) else None
  {
    match Find(ts, k)
    case None => None
    case Some(i) => Some(ts[i])
  }

  /** The number of records whose value is `b` (`getOpenCount` for `true`,
      `getCloseCount` for `false`). */
  function Count(ts: seq<Toggle>, b: bool): (n: nat)
    ensures n <= |ts|
  {
    if ts == [] then 0
    else (if ts[0].value == b then 1 else 0) + Count(ts[1..], b)
  }

  /** The keys of the records whose value is `b`, in collection order
      (`openKeys` for `true`, `closedKeys` for `false`). */
  function KeysWith(ts: seq<Toggle>, b: bool): (ks: seq<string>)
    ensures |ks| == Count(ts, b)
    ensures forall k :: k in ks <==> exists i :: 0 <= i < |ts| && ts[i] == Toggle(k, b)
  {
    if ts == [] then []
    else if ts[0].value == b then [ts[0].key] + KeysWith(ts[1..], b)
    else
      var rest := KeysWith(ts[1..], b);
      assert forall k :: k in rest <==> exists i :: 0 <= i < |ts| && ts[i] == Toggle(k, b) by {
        forall k ensures k in rest <==> exists i :: 0 <= i < |ts| && ts[i] == Toggle(k, b) {
          if k in rest {
            var i :| 0 <= i < |ts[1..]| && ts[1..][i] == Toggle(k, b);
            assert ts[i + 1] == Toggle(k, b);
          }
          if exists i :: 0 <= i < |ts| && ts[i] == Toggle(k, b) {
            var i :| 0 <= i < |ts| && ts[i] == Toggle(k, b);
            assert i != 0;
            assert ts[1..][i - 1] == Toggle(k, b);
          }
        }
      }
      rest
  }

  /** `filter` then `map` keeps collection order: the keys of a
      concatenation are the keys of its parts, in turn. */
  lemma {:induction false} KeysWithAppend(a: seq<Toggle>, b: seq<Toggle>, v: bool)
    ensures KeysWith(a + b, v) == KeysWith(a, v) + KeysWith(b, v)
  {
    if a != [] {
      assert (a + b)[1..] == a[1..] + b;
      KeysWithAppend(a[1..], b, v);
    } else {
      assert a + b == b;
    }
  }

  /** A single record contributes its key exactly when it has value `v`. */
  lemma KeysWithOne(t: Toggle, v: bool)
    ensures KeysWith([t], v) == if t.value == v then [t.key] else []
  {
  }

  /** Every record is counted as open or as closed, never both. */
  lemma {:induction false} CountsPartition(ts: seq<Toggle>)
    ensures Count(ts, true) + Count(ts, false) == |ts|
  {
    if ts != [] {
      CountsPartition(ts[1..]);
    }
  }

  /** A collection whose every value is `v` has `|ts|` records of value `v`
      and none of the other value. */
  lemma {:induction false} CountUniform(ts: seq<Toggle>, v: bool)
    requires forall i :: 0 <= i < |ts| ==> ts[i].value == v
    ensures Count(ts, v) == |ts|
    ensures Count(ts, !v) == 0
  {
    if ts != [] {
      CountUniform(ts[1..], v);
    }
  }

  // ---------------------------------------------------------------------
  // Insertion: the constructor (index.ts:19-27) and `createToggle`
  // (index.ts:48-53) both append a record only when its key is absent.
  // ---------------------------------------------------------------------

  /** Append `t` unless a record with its key is already present. */
  function AddIfAbsent(ts: seq<Toggle>, t: Toggle): (r: seq<Toggle>)
    ensures HasKey(ts, t.key) ==> r == ts
    ensures !HasKey(ts, t.key) ==> r == ts + [t]
  {
    if Find(ts, t.key).Some? then ts else ts + [t]
  }

  /** Offer the records of `s` one after the other to `AddIfAbsent`. */
  function InsertAll(ts: seq<Toggle>, s: seq<Toggle>): seq<Toggle>
    decreases |s|
  {
    if s == [] then ts
    else AddIfAbsent(InsertAll(ts, s[..|s| - 1]), s[|s| - 1])
  }

  /** `find` on `a + b` answers from `a` when `a` has the key, and otherwise
      from `b`, shifted past `a`. */
  lemma {:induction false} FindAppend(a: seq<Toggle>, b: seq<Toggle>, k: string)
    ensures Find(a + b, k) ==
              if HasKey(a, k) then Find(a, k)
              else if HasKey(b, k) then Some(|a| + Find(b, k).value)
              else None
  {
    if a == [] {
      assert a + b == b;
    } else {
      assert (a + b)[1..] == a[1..] + b;
      FindAppend(a[1..], b, k);
    }
  }

  /** The first record with key `k` in `a + b` is `a`'s if `a` has one, else `b`'s. */
  lemma LookupAppend(a: seq<Toggle>, b: seq<Toggle>, k: string)
    ensures Lookup(a + b, k) == if HasKey(a, k) then Lookup(a, k) else Lookup(b, k)
  {
    FindAppend(a, b, k);
  }

  /** Insertion never changes or reorders the records already present. */
  lemma {:induction false} InsertAllKeepsPrefix(ts: seq<Toggle>, s: seq<Toggle>)
    ensures |ts| <= |InsertAll(ts, s)|
    ensures InsertAll(ts, s)[..|ts|] == ts
    decreases |s|
  {
    if s != [] {
      InsertAllKeepsPrefix(ts, s[..|s| - 1]);
    }
  }

  /** After insertion a key is present exactly when it was present before or
      occurs in the offered records. */
  lemma {:induction false} InsertAllKeys(ts: seq<Toggle>, s: seq<Toggle>, k: string)
    ensures HasKey(InsertAll(ts, s), k) <==> HasKey(ts, k) || HasKey(s, k)
    decreases |s|
  {
    if s != [] {
      var s', t := s[..|s| - 1], s[|s| - 1];
      assert s == s' + [t];
      InsertAllKeys(ts, s', k);
      FindAppend(s', [t], k);
      var r' := InsertAll(ts, s');
      FindAppend(r', [t], k);
      InsertAllKeys(ts, s', t.key);
    }
  }

  /** Insertion keeps keys pairwise distinct. */
  lemma {:induction false} InsertAllDistinct(ts: seq<Toggle>, s: seq<Toggle>)
    requires DistinctKeys(ts)
    ensures DistinctKeys(InsertAll(ts, s))
    decreases |s|
  {
    if s != [] {
      var s', t := s[..|s| - 1], s[|s| - 1];
      InsertAllDistinct(ts, s');
      var r' := InsertAll(ts, s');
      if !HasKey(r', t.key) {
        var r := r' + [t];
        forall i, j | 0 <= i < j < |r| ensures r[i].key != r[j].key {
          assert r[i] == r'[i];
          if j == |r'| {
            assert r[j] == t;
          } else {
            assert r[j] == r'[j];
          }
        }
      }
    }
  }

  /** First occurrence wins: the record stored for `k` is the one already
      present, or else the FIRST offered record with key `k`. */
  lemma {:induction false} InsertAllLookup(ts: seq<Toggle>, s: seq<Toggle>, k: string)
    ensures Lookup(InsertAll(ts, s), k) == if HasKey(ts, k) then Lookup(ts, k) else Lookup(s, k)
    decreases |s|
  {
    if s != [] {
      var s', t := s[..|s| - 1], s[|s| - 1];
      assert s == s' + [t];
      InsertAllLookup(ts, s', k);
      InsertAllKeys(ts, s', k);
      InsertAllKeys(ts, s', t.key);
      var r' := InsertAll(ts, s');
      LookupAppend(s', [t], k);
      if !HasKey(r', t.key) {
        LookupAppend(r', [t], k);
      }
    }
  }

  /** The appended records carry keys that occur among the offered ones and
      were absent before. */
  lemma {:induction false} InsertAllFresh(ts: seq<Toggle>, s: seq<Toggle>)
    ensures |ts| <= |InsertAll(ts, s)|
    ensures forall a :: |ts| <= a < |InsertAll(ts, s)| ==>
              HasKey(s, InsertAll(ts, s)[a].key) && !HasKey(ts, InsertAll(ts, s)[a].key)
    decreases |s|
  {
    InsertAllKeepsPrefix(ts, s);
    if s != [] {
      var s', t := s[..|s| - 1], s[|s| - 1];
      assert s == s' + [t];
      InsertAllFresh(ts, s');
      var r', r := InsertAll(ts, s'), InsertAll(ts, s);
      forall a | |ts| <= a < |r|
        ensures HasKey(s, r[a].key) && !HasKey(ts, r[a].key)
      {
        if a < |r'| {
          assert r[a] == r'[a];
          FindAppend(s', [t], r'[a].key);
        } else {
          assert r[a] == t;
          InsertAllKeys(ts, s', t.key);
          FindAppend(s', [t], t.key);
        }
      }
    }
  }

  /** The appended records keep the order in which their keys first occur
      among the offered ones. */
  lemma {:induction false} InsertAllOrder(ts: seq<Toggle>, s: seq<Toggle>)
    ensures |ts| <= |InsertAll(ts, s)|
    ensures forall a, b :: |ts| <= a < b < |InsertAll(ts, s)| ==>
              HasKey(s, InsertAll(ts, s)[a].key) && HasKey(s, InsertAll(ts, s)[b].key) &&
              Find(s, InsertAll(ts, s)[a].key).value < Find(s, InsertAll(ts, s)[b].key).value
    decreases |s|
  {
    InsertAllFresh(ts, s);
    if s != [] {
      var s', t := s[..|s| - 1], s[|s| - 1];
      assert s == s' + [t];
      InsertAllOrder(ts, s');
      InsertAllFresh(ts, s');
      var r', r := InsertAll(ts, s'), InsertAll(ts, s);
      forall a | |ts| <= a < |r'|
        ensures Find(s, r'[a].key) == Find(s', r'[a].key)
        ensures Find(s', r'[a].key).value < |s'|
      {
        FindAppend(s', [t], r'[a].key);
      }
      if r != r' {
        assert r == r' + [t] && !HasKey(r', t.key);
        InsertAllKeys(ts, s', t.key);
        FindAppend(s', [t], t.key);
        assert Find(s, t.key) == Some(|s'|);
        forall a, b | |ts| <= a < b < |r|
          ensures Find(s, r[a].key).value < Find(s, r[b].key).value
        {
          assert r[a] == r'[a];
          if b < |r'| {
            assert r[b] == r'[b];
          } else {
            assert r[b] == t;
          }
        }
      }
    }
  }

  /** Offering `a + b` is offering `a`, then `b`. */
  lemma {:induction false} InsertAllConcat(ts: seq<Toggle>, a: seq<Toggle>, b: seq<Toggle>)
    ensures InsertAll(ts, a + b) == InsertAll(InsertAll(ts, a), b)
    decreases |b|
  {
    if b == [] {
      assert a + b == a;
    } else {
      var b', t := b[..|b| - 1], b[|b| - 1];
      assert (a + b)[..|a + b| - 1] == a + b' && (a + b)[|a + b| - 1] == t;
      InsertAllConcat(ts, a, b');
    }
  }

  /** Offering only keys that are already present changes nothing. */
  lemma {:induction false} InsertAllPresent(ts: seq<Toggle>, s: seq<Toggle>)
    requires forall i :: 0 <= i < |s| ==> HasKey(ts, s[i].key)
    ensures InsertAll(ts, s) == ts
    decreases |s|
  {
    if s != [] {
      InsertAllPresent(ts, s[..|s| - 1]);
    }
  }

  /** Offering records whose keys are new and pairwise distinct appends them
      all, in order. */
  lemma {:induction false} InsertAllNew(ts: seq<Toggle>, s: seq<Toggle>)
    requires DistinctKeys(ts + s)
    ensures InsertAll(ts, s) == ts + s
    decreases |s|
  {
    if s != [] {
      var s', t := s[..|s| - 1], s[|s| - 1];
      assert ts + s == (ts + s') + [t];
      assert DistinctKeys(ts + s') by {
        forall i, j | 0 <= i < j < |ts + s'| ensures (ts + s')[i].key != (ts + s')[j].key {
          assert (ts + s')[i] == (ts + s)[i] && (ts + s')[j] == (ts + s)[j];
        }
      }
      InsertAllNew(ts, s');
      forall i | 0 <= i < |ts + s'| ensures (ts + s')[i].key != t.key {
        assert (ts + s')[i] == (ts + s)[i] && t == (ts + s)[|ts + s'|];
      }
    }
  }

  // ---------------------------------------------------------------------
  // Construction and `createToggle`.
  // ---------------------------------------------------------------------

  /** One constructor item as a record: a bare key takes the initial value
      (index.ts:21), a record is kept as given (index.ts:22). */
  function ItemToggle(item: Item, initialValue: bool): Toggle
  {
    match item
    case KeyItem(k) => Toggle(k, initialValue)
    case RecordItem(t) => t
  }

  /** The constructor's items as records, in input order. */
  function ItemToggles(items: seq<Item>, initialValue: bool): (ts: seq<Toggle>)
    ensures |ts| == |items|
    ensures forall i :: 0 <= i < |items| ==> ts[i] == ItemToggle(items[i], initialValue)
  {
    seq(|items|, i requires 0 <= i < |items| => ItemToggle(items[i], initialValue))
  }

  /** The records a new `ToggleGroup(items, initialValue)` holds. */
  function Build(items: seq<Item>, initialValue: bool): seq<Toggle> {
    InsertAll([], ItemToggles(items, initialValue))
  }

  /** Building a group from bare keys is `createToggle` of those keys on an
      empty group: both append each new key once, in order, with the
      initial value. */
  lemma BuildKeysIsCreate(keys: seq<string>, v: bool)
    ensures Build(KeyItems(keys), v) == Create([], ManyKeys(keys), v)
  {
    assert ItemToggles(KeyItems(keys), v) == NewToggles(keys, v);
  }

  /** The keys `createToggle` is asked for, in order. */
  function KeyList(keys: KeyArg): seq<string>
  {
    match keys
    case OneKey(k) => [k]
    case ManyKeys(ks) => ks
  }

  /** Fresh records for `keys`, all with value `v`, in order (index.ts:38-46). */
  function NewToggles(keys: seq<string>, v: bool): (ts: seq<Toggle>)
    ensures |ts| == |keys|
    ensures forall i :: 0 <= i < |keys| ==> ts[i] == Toggle(keys[i], v)
  {
    seq(|keys|, i requires 0 <= i < |keys| => Toggle(keys[i], v))
  }

  /** The records after `createToggle(keys, initialValue)` on `ts`. */
  function Create(ts: seq<Toggle>, keys: KeyArg, initialValue: bool): seq<Toggle> {
    InsertAll(ts, NewToggles(KeyList(keys), initialValue))
  }

  /** A constructed group: keys pairwise distinct, a key present exactly when
      some item carries it, the first item carrying a key decides its record,
      and the records follow the order of first occurrence in the input. */
  lemma BuildSpec(items: seq<Item>, initialValue: bool)
    ensures DistinctKeys(Build(items, initialValue))
    ensures forall k :: HasKey(Build(items, initialValue), k) <==> HasKey(ItemToggles(items, initialValue), k)
    ensures forall k :: Lookup(Build(items, initialValue), k) == Lookup(ItemToggles(items, initialValue), k)
    ensures forall a, b :: 0 <= a < b < |Build(items, initialValue)| ==>
              HasKey(ItemToggles(items, initialValue), Build(items, initialValue)[a].key) &&
              HasKey(ItemToggles(items, initialValue), Build(items, initialValue)[b].key) &&
              Find(ItemToggles(items, initialValue), Build(items, initialValue)[a].key).value
              < Find(ItemToggles(items, initialValue), Build(items, initialValue)[b].key).value
  {
    var s := ItemToggles(items, initialValue);
    InsertAllDistinct([], s);
    InsertAllOrder([], s);
    forall k ensures HasKey(Build(items, initialValue), k) <==> HasKey(s, k) {
      InsertAllKeys([], s, k);
    }
    forall k ensures Lookup(Build(items, initialValue), k) == Lookup(s, k) {
      InsertAllLookup([], s, k);
    }
  }

  /** Records whose keys are pairwise distinct number as many as their keys. */
  lemma {:induction false} DistinctKeyCount(ts: seq<Toggle>)
    requires DistinctKeys(ts)
    ensures |KeySet(ts)| == |ts|
  {
    if ts != [] {
      var rest := ts[1..];
      assert DistinctKeys(rest) by {
        forall i, j | 0 <= i < j < |rest| ensures rest[i].key != rest[j].key {
          assert rest[i] == ts[i + 1] && rest[j] == ts[j + 1];
        }
      }
      DistinctKeyCount(rest);
      forall i | 0 <= i < |rest| ensures rest[i].key != ts[0].key {
        assert rest[i] == ts[i + 1];
      }
      assert ts[0].key !in KeySet(rest);
    }
  }

  /** Every record after insertion was present before or was offered. */
  lemma {:induction false} InsertAllFrom(ts: seq<Toggle>, s: seq<Toggle>)
    ensures forall t :: t in InsertAll(ts, s) ==> t in ts || t in s
    decreases |s|
  {
    if s != [] {
      InsertAllFrom(ts, s[..|s| - 1]);
      forall t | t in s[..|s| - 1] ensures t in s {
        var i :| 0 <= i < |s| - 1 && s[..|s| - 1][i] == t;
        assert s[i] == t;
      }
    }
  }

  /** The constructor items for a list of bare keys. */
  function KeyItems(keys: seq<string>): seq<Item>
  {
    seq(|keys|, i requires 0 <= i < |keys| => KeyItem(keys[i]))
  }

  /** A group built from bare keys gives every record the initial value. */
  lemma BuildFromKeysValues(keys: seq<string>, initialValue: bool)
    ensures forall t :: t in Build(KeyItems(keys), initialValue) ==> t.value == initialValue
  {
    InsertAllFrom([], ItemToggles(KeyItems(keys), initialValue));
  }

  /** A group built from bare keys holds one record per distinct input key,
      so its open and closed counts add up to the number of distinct keys. */
  lemma BuildFromKeysCount(keys: seq<string>, initialValue: bool)
    ensures Count(Build(KeyItems(keys), initialValue), true)
            + Count(Build(KeyItems(keys), initialValue), false)
            == |set k | k in keys|
  {
    var s := ItemToggles(KeyItems(keys), initialValue);
    var r := Build(KeyItems(keys), initialValue);
    forall k ensures k in KeySet(r) <==> k in keys {
      InsertAllKeys([], s, k);
      if k in keys {
        var i :| 0 <= i < |keys| && keys[i] == k;
        assert s[i].key == k;
      }
      if HasKey(s, k) {
        var i :| 0 <= i < |s| && s[i].key == k;
        assert keys[i] == k;
      }
    }
    assert KeySet(r) == set k | k in keys;
    InsertAllDistinct([], s);
    DistinctKeyCount(r);
    CountsPartition(r);
  }

  /** `createToggle` keeps every existing record as it was, adds only absent
      keys, each with the initial value, the first time they are asked for,
      and keeps keys distinct. */
  lemma CreateSpec(ts: seq<Toggle>, keys: KeyArg, initialValue: bool)
    ensures DistinctKeys(ts) ==> DistinctKeys(Create(ts, keys, initialValue))
    ensures |ts| <= |Create(ts, keys, initialValue)| && Create(ts, keys, initialValue)[..|ts|] == ts
    ensures forall k :: HasKey(Create(ts, keys, initialValue), k) <==> HasKey(ts, k) || k in KeyList(keys)
    ensures forall k :: HasKey(ts, k) ==> ValueOf(Create(ts, keys, initialValue), k) == ValueOf(ts, k)
    ensures forall k :: !HasKey(ts, k) && k in KeyList(keys) ==>
              ValueOf(Create(ts, keys, initialValue), k) == Some(initialValue)
  {
    var s := NewToggles(KeyList(keys), initialValue);
    if DistinctKeys(ts) {
      InsertAllDistinct(ts, s);
    }
    InsertAllKeepsPrefix(ts, s);
    forall k ensures HasKey(s, k) <==> k in KeyList(keys) {
      if k in KeyList(keys) {
        var i :| 0 <= i < |KeyList(keys)| && KeyList(keys)[i] == k;
        assert s[i].key == k;
      }
    }
    forall k ensures HasKey(Create(ts, keys, initialValue), k) <==> HasKey(ts, k) || HasKey(s, k) {
      InsertAllKeys(ts, s, k);
    }
    forall k ensures ValueOf(Create(ts, keys, initialValue), k) == if HasKey(ts, k) then ValueOf(ts, k) else ValueOf(s, k) {
      InsertAllLookup(ts, s, k);
    }
  }

  /** Asking `createToggle` a second time for the same keys, with any initial
      value, changes nothing. */
  lemma CreateIdempotent(ts: seq<Toggle>, keys: KeyArg, v: bool, w: bool)
    ensures Create(Create(ts, keys, v), keys, w) == Create(ts, keys, v)
  {
    var once := Create(ts, keys, v);
    var again := NewToggles(KeyList(keys), w);
    forall i | 0 <= i < |again| ensures HasKey(once, again[i].key) {
      InsertAllKeys(ts, NewToggles(KeyList(keys), v), again[i].key);
      assert NewToggles(KeyList(keys), v)[i].key == again[i].key;
    }
    InsertAllPresent(once, again);
  }

  // ---------------------------------------------------------------------
  // Per-key and bulk updates.
  // ---------------------------------------------------------------------

  /** Replacing a record by one with the same key changes no lookup's index. */
  lemma FindSameKeys(ts: seq<Toggle>, i: nat, t: Toggle, k: string)
    requires i < |ts| && t.key == ts[i].key
    ensures Find(ts[i := t], k) == Find(ts, k)
  {
    var r := ts[i := t];
    assert forall j :: 0 <= j < |ts| ==> r[j].key == ts[j].key;
    assert HasKey(r, k) <==> HasKey(ts, k);
    if HasKey(ts, k) {
      var j, j' := Find(ts, k).value, Find(r, k).value;
      assert r[j].key == k && ts[j'].key == k;
      assert j == j';
    }
  }

  /** `setValue(k, v)` as it behaves: the first record with key `k` takes
      value `v`; with no such record nothing changes, because the record the
      source creates is pushed onto the getter's copy (index.ts:182-192). */
  function Assign(ts: seq<Toggle>, k: string, v: bool): (r: seq<Toggle>)
    ensures |r| == |ts|
    ensures forall j :: 0 <= j < |ts| && ts[j].key != k ==> r[j] == ts[j]
    ensures HasKey(ts, k) ==> r[Find(ts, k).value] == Toggle(k, v)
    ensures HasKey(ts, k) ==> forall j :: 0 <= j < |ts| && j != Find(ts, k).value ==> r[j] == ts[j]
    ensures forall i :: 0 <= i < |ts| ==> r[i].key == ts[i].key
    ensures !HasKey(ts, k) ==> r == ts
    ensures ValueOf(r, k) == if HasKey(ts, k) then Some(v) else None
    ensures forall k' :: k' != k ==> ValueOf(r, k') == ValueOf(ts, k')
    ensures DistinctKeys(ts) ==> DistinctKeys(r)
  {
    match Find(ts, k)
    case None => ts
    case Some(i) =>
      var r := ts[i := Toggle(k, v)];
      assert forall k' :: Find(r, k') == Find(ts, k') by {
        forall k' ensures Find(r, k') == Find(ts, k') {
          FindSameKeys(ts, i, Toggle(k, v), k');
        }
      }
      r
  }

  /** `toggle(k)` as it behaves: the first record with key `k` flips its
      value; with no such record nothing changes (index.ts:203-213). */
  function Flip(ts: seq<Toggle>, k: string): (r: seq<Toggle>)
    ensures |r| == |ts|
    ensures forall j :: 0 <= j < |ts| && ts[j].key != k ==> r[j] == ts[j]
    ensures HasKey(ts, k) ==> r[Find(ts, k).value] == Toggle(k, !ts[Find(ts, k).value].value)
    ensures HasKey(ts, k) ==> forall j :: 0 <= j < |ts| && j != Find(ts, k).value ==> r[j] == ts[j]
    ensures forall i :: 0 <= i < |ts| ==> r[i].key == ts[i].key
    ensures !HasKey(ts, k) ==> r == ts
    ensures HasKey(ts, k) ==> ValueOf(r, k) == Some(!ValueOf(ts, k).value)
    ensures forall k' :: k' != k ==> ValueOf(r, k') == ValueOf(ts, k')
    ensures DistinctKeys(ts) ==> DistinctKeys(r)
  {
    match Find(ts, k)
    case None => ts
    case Some(i) => Assign(ts, k, !ts[i].value)
  }

  /** Setting a key twice is setting it to the second value. */
  lemma AssignTwice(ts: seq<Toggle>, k: string, v: bool, w: bool)
    ensures Assign(Assign(ts, k, v), k, w) == Assign(ts, k, w)
  {
    if HasKey(ts, k) {
      var i := Find(ts, k).value;
      FindSameKeys(ts, i, Toggle(k, v), k);
    }
  }

  /** Toggling a key twice restores the collection. */
  lemma FlipTwice(ts: seq<Toggle>, k: string)
    ensures Flip(Flip(ts, k), k) == ts
  {
    if HasKey(ts, k) {
      var i := Find(ts, k).value;
      var once := ts[i := Toggle(k, !ts[i].value)];
      FindSameKeys(ts, i, Toggle(k, !ts[i].value), k);
      assert Flip(ts, k) == once;
      assert once[i := Toggle(k, !once[i].value)] == ts;
    }
  }

  /** `setAll(v)`: every record takes value `v`, keys and order kept. */
  function AssignAll(ts: seq<Toggle>, v: bool): (r: seq<Toggle>)
    ensures |r| == |ts|
    ensures forall i :: 0 <= i < |ts| ==> r[i] == Toggle(ts[i].key, v)
  {
    seq(|ts|, i requires 0 <= i < |ts| => Toggle(ts[i].key, v))
  }

  /** After `setAll(v)`, all records have value `v`: `openAll` leaves no
      record closed and `closeAll` none open (index.ts:70-72, 150-152). */
  lemma AssignAllCounts(ts: seq<Toggle>, v: bool)
    ensures Count(AssignAll(ts, v), v) == |ts|
    ensures Count(AssignAll(ts, v), !v) == 0
    ensures KeysWith(AssignAll(ts, v), !v) == []
    ensures DistinctKeys(ts) ==> DistinctKeys(AssignAll(ts, v))
  {
    CountUniform(AssignAll(ts, v), v);
  }

  /** `dropOpen(k)`: close every record, then open `k` (index.ts:86-88). */
  function DropOpen(ts: seq<Toggle>, k: string): seq<Toggle> {
    Assign(AssignAll(ts, false), k, true)
  }

  /** With `k` present, `dropOpen(k)` leaves exactly one open record, the
      first one for `k`; with `k` absent it leaves none open. This holds for
      any collection, repeated keys included. */
  lemma {:induction false} DropOpenSpec(ts: seq<Toggle>, k: string)
    ensures |DropOpen(ts, k)| == |ts|
    ensures HasKey(ts, k) ==> Count(DropOpen(ts, k), true) == 1 && KeysWith(DropOpen(ts, k), true) == [k]
    ensures HasKey(ts, k) ==> Count(DropOpen(ts, k), false) == |ts| - 1
    ensures !HasKey(ts, k) ==> Count(DropOpen(ts, k), true) == 0 && KeysWith(DropOpen(ts, k), true) == []
    ensures !HasKey(ts, k) ==> Count(DropOpen(ts, k), false) == |ts|
  {
    var closed := AssignAll(ts, false);
    var r := DropOpen(ts, k);
    if HasKey(ts, k) {
      var i := Find(ts, k).value;
      assert closed[i].key == k;
      var j := Find(closed, k).value;
      assert ts[j].key == k;
      assert j == i;
      assert r == closed[i := Toggle(k, true)];
      OneOpen(r, i);
      CountsPartition(r);
    } else {
      forall i | 0 <= i < |closed| ensures closed[i].key != k {
        assert ts[i].key != k;
      }
      assert !HasKey(closed, k);
      CountUniform(closed, false);
    }
  }

  /** A collection whose only open record is at index `i` has one open record
      and its open keys are that record's key alone. */
  lemma {:induction false} OneOpen(ts: seq<Toggle>, i: nat)
    requires i < |ts| && ts[i].value
    requires forall j :: 0 <= j < |ts| && j != i ==> !ts[j].value
    ensures Count(ts, true) == 1
    ensures KeysWith(ts, true) == [ts[i].key]
  {
    if i == 0 {
      CountUniform(ts[1..], false);
    } else {
      OneOpen(ts[1..], i - 1);
    }
  }
}
