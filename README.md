# ToggleGroup in Dafny

A model of `ToggleGroup` (index.ts), a small in-memory collection of named
boolean flags. A toggle is a record `{key, value}`: the key names it, and the
value says whether it is open (`true`) or closed (`false`). A group keeps its
toggles in insertion order, with no key twice. It supports:

- bulk construction from bare keys or from full records, with duplicates dropped;
- `createToggle`, which adds keys that are not yet present;
- per-key updates: `setValue`, `open`, `close`, `toggle`;
- bulk updates: `setAll`, `openAll`, `closeAll`, `dropOpen`;
- queries: `getValue`, `getToggle`, the open and closed counts, and the open
  and closed key lists;
- a `toggles` getter that returns a copy, and a setter that replaces the list.

The project has three files:

- `records.dfy` (module `Records`) states what every operation does to an
  ordered sequence of `Toggle` values, and proves what it promises:
  - key uniqueness;
  - the first occurrence of a key wins;
  - insertion order is kept;
  - the counts add up;
  - the effect of `dropOpen`;
  - toggling twice restores the group.
- `group.dfy` (module `Group`) is the class `ToggleGroup`. Its field `items`
  is the private list `_toggles`. Its methods update that list step by step,
  as the source does. Each mutating method except the `toggles` setter is
  proved equal to the matching `Records` function of the old list and keeps
  the invariant `Valid()` (keys pairwise distinct). The setter stores its
  argument as given, and `Valid()` then holds exactly when that argument's
  keys are distinct. `GetToggle` changes nothing.
- `scenarios.dfy` restates the library's Jasmine scenarios
  (src/toggle-group.spec.ts). Module `ScenarioData` proves each scenario step
  on `Records` values. Module `Scenarios` runs the steps through the class as
  client code, and each method's postcondition is the expected observation.

One behaviour of the code is followed exactly, although it is probably not
what the authors meant. `setValue`, `toggle` and `getToggle` look up the key
in `this.toggles`. That getter returns a fresh copy of the list. When the key
is missing, each method pushes a new record onto that copy, so the record is
lost. The code builds and pushes a new record (index.ts:118, 189, 210), which
shows the intent to create the key, but the push goes to the getter's copy:
on a miss the group is left unchanged. This model follows
the code.

- `Assign` and `Flip` therefore leave the list unchanged when the key is absent.
- `GetToggle` has no `modifies` clause.
- `Scenarios.MissIsLost` shows a key that stays absent after `setValue`,
  `toggle` and `getToggle`.

Updates to a key that is present do take effect. The copy is shallow, so the
record it changes is the one stored in the list.

The getters `GetValue`, `GetOpenCount`, `GetCloseCount`, `OpenKeys` and
`ClosedKeys` of the class are one-line views of `Records` functions over
`items`. The rows below name those `Records` functions. The `toggles` getter
(index.ts:222-224) is `Toggles`, which returns `items`: a Dafny sequence is a
value, so what it returns is already a copy, as the source's `map((i) => i)` is.

## Model

| member | source | states |
|---|---|---|
| `Records.Find` | index.ts:49 | `find` on the key: `None` exactly when no record has the key; otherwise the index of a record with the key, and no earlier record has it |
| `Records.ValueOf` | index.ts:129-132 | `getValue`: absent (`None`, the source's `undefined`) exactly when no record has the key; otherwise the value of the first record with that key |
| `Records.Lookup` | index.ts:111 | the record `find` returns: absent exactly when the key is missing; otherwise a stored record with that key, whose value is what `getValue` reports |
| `Records.Count` | index.ts:102-104 | the open count (and the closed count, at index.ts:94-96) never exceeds the number of records |
| `Records.KeysWith` | index.ts:158-160 | `openKeys` (and `closedKeys`, at index.ts:78-80) has as many entries as the open (closed) count, and contains a key exactly when some record with that key has that value; its order is stated by `Records.KeysWithAppend` |
| `Records.KeysWithAppend` | index.ts:158-160 | `openKeys`/`closedKeys` keep collection order: the keys of `a + b` are the keys of `a` followed by those of `b` |
| `Records.KeysWithOne` | index.ts:78-80 | a single record contributes its key exactly when its value matches; with `KeysWithAppend` this fixes the whole sequence, order included |
| `Records.CountsPartition` | index.ts:94-104 | the open count plus the closed count is the number of records |
| `Records.CountUniform` | index.ts:167-173 | when every record has value `v`, the count for `v` is the number of records and the count for the other value is 0 |
| `Records.AddIfAbsent` | index.ts:25-26 | a record is appended exactly when its key is not yet present; otherwise the list is unchanged |
| `Records.InsertAllKeepsPrefix` | index.ts:48-53 | inserting never changes, removes or reorders the records already present |
| `Records.InsertAllKeys` | index.ts:48-53 | after inserting, a key is present exactly when it was present before or was offered |
| `Records.InsertAllDistinct` | index.ts:24-26 | inserting keeps keys pairwise distinct |
| `Records.InsertAllLookup` | index.ts:19-27 | first occurrence wins: the record stored for a key is the one already present, or else the first offered record with that key |
| `Records.InsertAllFresh` | index.ts:48-53 | every appended record has a key that was offered and was absent before |
| `Records.InsertAllOrder` | index.ts:19-27 | appended records follow the order in which their keys first occur in the input |
| `Records.InsertAllPresent` | index.ts:49-52 | offering only keys that are already present changes nothing |
| `Records.InsertAllNew` | index.ts:49-52 | offering new, pairwise distinct keys appends all of them in order |
| `Records.InsertAllConcat` | index.ts:48-53 | offering `a + b` is the same as offering `a` and then `b` |
| `Records.NewToggles` | index.ts:38-46 | `createToggle` first builds one record per requested key, in order, each with the initial value |
| `Records.BuildSpec` | index.ts:18-28 | a new group has distinct keys; it holds a key exactly when some input item carries it; that key's record comes from the first such item; records follow the input order of first occurrence |
| `Records.BuildFromKeysValues` | index.ts:21 | a group built from bare keys gives every record the initial value |
| `Records.BuildFromKeysCount` | index.ts:18-28 | for a group built from bare keys, the open count plus the closed count is the number of distinct input keys |
| `Records.BuildKeysIsCreate` | index.ts:18-28 | building a group from bare keys (index.ts:21) gives the same list as `createToggle` of those keys (index.ts:37-54) on an empty group |
| `Records.CreateSpec` | index.ts:37-54 | on any list, `createToggle` leaves existing records in place with their values and keeps distinct keys distinct; a requested key that was absent gets the initial value, and no other key is added |
| `Records.CreateIdempotent` | index.ts:48-53 | asking `createToggle` again for the same keys, with any initial value, changes nothing |
| `Records.Assign` | index.ts:181-195 | `setValue`: length and keys are unchanged; the first record with `k` becomes `(k, v)` and every other record, later ones with the same key included, is unchanged; afterwards `getValue(k)` is `v` if `k` was present, and still absent (the list unchanged) if not; keys stay distinct |
| `Records.Flip` | index.ts:202-216 | `toggle`: length and keys are unchanged; the first record with `k` has its value negated and every other record, later ones with the same key included, is unchanged; an absent key leaves the list unchanged |
| `Records.AssignTwice` | index.ts:181-195 | setting a key twice has the effect of the second setting alone |
| `Records.FlipTwice` | index.ts:202-216 | toggling a key twice restores the list |
| `Records.AssignAll` | index.ts:167-173 | `setAll(v)`: every record keeps its key and position and takes value `v` |
| `Records.AssignAllCounts` | index.ts:150-152 | after `openAll` no record is closed (`closeAll`, index.ts:70-72: none open); the other count is the number of records, the matching key list is empty, and keys stay distinct |
| `Records.DropOpenSpec` | index.ts:86-88 | for any list, repeated keys included: with `k` present, `dropOpen(k)` leaves exactly one open record; `openKeys` is `[k]` and the closed count is the rest; with `k` absent nothing stays open |
| `Records.OneOpen` | index.ts:158-160 | when only the record at index `i` is open, the open count is 1 and `openKeys` is that record's key alone |
| `Group.ToggleGroup.constructor` | index.ts:18-28 | the loop builds exactly the deduplicated list of `Records.Build`, and the new group is valid |
| `Group.ToggleGroup.SetToggles` | index.ts:231-233 | the setter stores the list as given; the group is valid afterwards exactly when that list has distinct keys |
| `Group.ToggleGroup.CreateToggle` | index.ts:37-54 | the two loops leave the list equal to `Records.Create` of the old list; validity is kept |
| `Group.ToggleGroup.GetToggle` | index.ts:110-122 | changes nothing; returns the first stored record with the key, or `(key, false)` when the key is absent |
| `Group.ToggleGroup.SetValue` | index.ts:181-195 | the list becomes `Records.Assign` of the old list; on a miss the push goes to the copy, and the list is unchanged; validity is kept |
| `Group.ToggleGroup.Open` | index.ts:140-142 | `setValue(key, true)` |
| `Group.ToggleGroup.Close` | index.ts:61-63 | `setValue(key, false)` |
| `Group.ToggleGroup.Toggle` | index.ts:202-216 | the list becomes `Records.Flip` of the old list; on a miss it is unchanged; validity is kept |
| `Group.ToggleGroup.SetAll` | index.ts:167-173 | the loop over the copy leaves the list equal to `Records.AssignAll` of the old list |
| `Group.ToggleGroup.OpenAll` | index.ts:150-152 | `setAll(true)` |
| `Group.ToggleGroup.CloseAll` | index.ts:70-72 | `setAll(false)` |
| `Group.ToggleGroup.DropOpen` | index.ts:86-88 | `setAll(false)` then `open(key)`, as in `Records.DropOpen` |
| `ScenarioData.BuildDuplicate` | src/toggle-group.spec.ts:11 | two records with key `good` give a one-record group |
| `ScenarioData.BuildTwoKeys` | src/toggle-group.spec.ts:26 | bare keys `good` and `bad` with `false` give two closed records |
| `ScenarioData.TwoKeysAll` | src/toggle-group.spec.ts:27-34 | `openAll` and then `closeAll` on those two records set both values |
| `ScenarioData.BuildSix` | src/toggle-group.spec.ts:49-58 | the six distinct records are stored as given |
| `ScenarioData.CreateSad` | src/toggle-group.spec.ts:60 | `createToggle('sad')` appends a closed `sad` |
| `ScenarioData.CreateHappy` | src/toggle-group.spec.ts:61 | `createToggle('happy', true)` appends an open `happy` |
| `ScenarioData.CreateFour` | src/toggle-group.spec.ts:62 | `createToggle(['happy', 'sad', 'happy1', 'sad1'], true)` leaves `happy` and `sad` alone and appends open `happy1` and `sad1` |
| `ScenarioData.DropGood1` | src/toggle-group.spec.ts:84-87 | `dropOpen('good1')` on the ten records leaves 1 open and 9 closed |
| `ScenarioData.SixOpenKeys` | src/toggle-group.spec.ts:102-106 | the open keys of the six records are `bad`, `bad1`, `bad2` |
| `ScenarioData.SixClosedKeys` | src/toggle-group.spec.ts:103-108 | the closed keys of the six records are `good`, `good1`, `good2` |
| `Scenarios.DuplicateInput` | src/toggle-group.spec.ts:11 | a group from a duplicated record has one record, and its value is reported |
| `Scenarios.OpenClose` | src/toggle-group.spec.ts:14-23 | `open` then `getValue` gives `true`; `close` then `getValue` gives `false` |
| `Scenarios.OpenCloseAll` | src/toggle-group.spec.ts:25-35 | after `openAll` both keys read `true`; after `closeAll` both read `false` |
| `Scenarios.SetGet` | src/toggle-group.spec.ts:37-46 | `setValue` on a present key is what `getValue` then reports |
| `Scenarios.MissIsLost` | index.ts:181-224 | after `setValue` and `toggle` on an absent key, that key is still absent; `getToggle` returns `(key, false)`; the group still has one record |
| `Scenarios.CreateSix` | src/toggle-group.spec.ts:49-62 | the six records and the three `createToggle` calls give the ten expected records |
| `Scenarios.CreateAndCount` | src/toggle-group.spec.ts:48-66 | the counts are then 6 open and 4 closed |
| `Scenarios.CreateAndDropOpen` | src/toggle-group.spec.ts:68-88 | after a further `dropOpen('good1')`, the counts are 1 open and 9 closed |
| `Scenarios.OpenKeyList` | src/toggle-group.spec.ts:102-106 | `openKeys` of the six records is exactly `bad`, `bad1`, `bad2`: three keys, including `bad` but not `good` |
| `Scenarios.ClosedKeyList` | src/toggle-group.spec.ts:103-108 | `closedKeys` is exactly `good`, `good1`, `good2`: three keys, including `good2` but not `bad1` |

## Left out

- `Toggle.from` (index.ts:264-266) copies the two fields into a new object. With records as values that copy is the identity, so no member models it. src/toggle.ts repeats the same class and is not part of this model.
- Object identity and aliasing are not modelled. The constructor and the setter store the caller's record objects, and `getToggle` returns a stored object, so a caller can change a record behind the group's back. The model treats records as values. It keeps only the observable effect: in-place updates of a present key's record persist.
- The `toggles` getter returns a copy. Pushing onto the copy is modelled only where the source does it (the lost create-on-miss); callers' own edits of the copy are outside the model.
- The `toggles` setter (index.ts:231-233) does no deduplication. The model accepts any list there. `Valid()` then holds exactly when the keys are distinct. The other methods do not require `Valid()`: each acts on the first record with the key, as `find` does.
- Runtime type tests are replaced by tagged unions:
  - `item + '' === item` (index.ts:21) becomes `Records.Item` (`KeyItem` or `RecordItem`), tested per item as the source does.
  - `typeof keys === 'string'` (index.ts:40) becomes `Records.KeyArg`.
- The difference between `==` and `===` on keys does not matter for string keys.
- Default arguments (`toggles = []`, `initalValue = false`) are not modelled: callers pass both arguments.
- Method chaining (`return this`) is not modelled; the mutating methods return nothing.
- The module export (index.ts:269) is not modelled.
- JavaScript values that the declared types exclude (non-string keys, non-boolean values) are not modelled.
