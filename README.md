# angular-collection: the `Collection` store in Dafny

This project models the `Collection` object that the `$collection` factory of
angular-collection.js returns. A collection keeps records in an array, in insertion
order or comparator order. It indexes them by id in a plain object `hash`, and it keeps
a counter `length`. Its configuration is `idAttribute` (default `id`), an optional
`comparator` and a `_chain` flag.

The model has two layers.

- **`StoreSpec`** (`store_spec.dfy`) is a pure model of the store. It is generic over
  the record handle `H`, and a store value is `Store(items, hash, heap)`:
  - `items` is the array;
  - `hash` maps property names to records;
  - `heap` gives each record's fields.

  Each operation of the collection is a function on store values: `Add`, `Get`,
  `Update`, `RemoveList`/`RemoveOwn`, `Filter`/`First`, `SortStore`, `SliceOf`, `PluckOf`
  and `Wrap`. `Indexed` is the store invariant:
  - every record of the array carries a truthy id and is the record `hash` files under
    that id;
  - every entry of `hash` is a record of the array, filed under its own id;
  - no record occurs twice.
- **`NgCollection`** (`collection.dfy`) is the imperative object. It uses these classes:
  - `Record` is a reference cell holding a field map, so a merge made through `hash` is
    seen through the array.
  - `JsArray` is a shared array, so `removeAll` can pass the live array to `remove`, and
    `sort` can replace it.
  - `GuidSource` supplies ids.
  - `Collection` has the fields `arr`, `hash`, `length`, `idAttribute`, `comparator` and
    `chained`.

  Each method's loop mirrors the loop of the source. Each method is proved to leave the
  object in the state the matching `StoreSpec` function gives (`Abs()`, `Agrees`), and to
  keep `Valid()`. `Valid()` is the store invariant plus `length == |array|`.

The properties of the pure functions are proved in these modules:

| module | what its lemmas cover |
|---|---|
| `StoreInvariant` | every operation keeps `Indexed` |
| `StoreAdd` | id assignment, merge, append, and a batch with duplicate ids |
| `StoreRemove` | the batch stops at the first miss; the order of the rest is kept; the `removeAll` quirk |
| `StoreWhere` | selection and first match |
| `StoreAccess` | `slice`, `at` and `pluck` |
| `StoreFindings` | two defects of the code, and their corrections |

The supporting modules model the values the store works with:

- `Values`: JavaScript values, truthiness, property-name coercion (`String(v)`) and
  `angular.extend`.
- `Ordering`: the comparison that `orderBy` sorts by in Angular 1.4 and earlier, and a sort by it.
- `Guid`: the format of `_guid()`.

Two accessors have no row of their own below:

- `size()` is `Collection.Size`. `SizeAgrees` states its contract.
- `all()` is `Collection.All`, which returns the live array itself. `RemoveAll` passes
  that same live array, `arr`, to `remove`.

The model follows the code in these places:

- `where` treats any argument that is neither a function nor a string as a comparison
  object. So `null` or a number selects every record, and the
  `if (!compareFn) return false` branch (lines 120-122) is unreachable.
- `removeAll` leaves every other record in place (see Findings).
- A numeric id and the string of its digits file a record under the same key, as
  JavaScript's property-name coercion does.

## Model

| member | source | states |
|---|---|---|
| NgCollection.GuidSource.Next | angular-collection.js:6-13 | each call returns the id formatted from the next unused draw and uses that draw up |
| Guid.S4 | angular-collection.js:7-9 | `s4()` is exactly four lower-case hexadecimal digits |
| Guid.S4RoundTrip | angular-collection.js:7-9 | the four digits of `s4()` read back as the 16-bit draw they came from: only the leading `1` of `0x10000 + x` is cut off |
| Guid.HexRoundTrip | angular-collection.js:8 | `toString(16)` is undone by reading the digits back |
| Guid.Format | angular-collection.js:11-12 | a guid is 36 characters: dashes at positions 8, 13, 18 and 23, and hexadecimal digits everywhere else |
| Guid.FormatGroups | angular-collection.js:11-12 | the k-th four-character group of a guid is `s4()` of the k-th draw |
| Guid.FormatInjective | angular-collection.js:11-12 | different draws give different guids |
| NgCollection.Collection.constructor | angular-collection.js:24-37 | `options.comparator` is kept; `idAttribute` falls back to `id` when the option is empty; the state is `_reset()` followed by `add(models)` with default options, so the records are sorted when a comparator is set; the invariant holds; chain mode is off |
| NgCollection.Collection.ResetStore | angular-collection.js:266-270 | `_reset()` leaves a fresh empty array and an empty `hash`, and the invariant holds |
| StoreSpec.Reset | angular-collection.js:266-270 | the reset store has no records and no ids |
| StoreSpec.ResetIndexed | angular-collection.js:266-270 | the empty store satisfies the invariant |
| NgCollection.Collection.Add | angular-collection.js:44-76 | `add(models, {sort})` leaves the object in the state `StoreSpec.Add` gives, over the fields the records had on entry and the ids drawn; the invariant holds; `_chain` is kept |
| NgCollection.Collection.AddBatch | angular-collection.js:54-71 | the loop over the batch produces the state of `AddLoop`, one turn at a time |
| NgCollection.Collection.AddOne | angular-collection.js:55-70 | one turn of the loop produces the state of `AddStep` |
| NgCollection.Collection.AssignIdTo | angular-collection.js:57-59 | a record with a falsy id gets the next guid as its id; a record with a truthy id is untouched and draws nothing |
| NgCollection.Collection.PlaceOne | angular-collection.js:61-70 | the record merges into the one `get` finds; otherwise it is filed in `hash` and pushed onto the array, and `length` goes up by one |
| NgCollection.Collection.MergeFields | angular-collection.js:62 | `angular.extend(existing, model)` updates the live record in place |
| NgCollection.Collection.FinishAdd | angular-collection.js:52-73 | `sort()` runs only when the comparator is truthy and sorting was not turned off; the state is that of `StoreSpec.Add`, no ids are drawn, and the invariant holds |
| NgCollection.Collection.SortAgreeing | angular-collection.js:73 | the closing `sort()` of `add` gives the sorted store and keeps the invariant |
| StoreAdd.AddStepOutcome | angular-collection.js:57-70 | one turn of `add`: a candidate with a falsy id takes a fresh guid, and only then is an id drawn. When a record is filed under the id, the array and `hash` stay as they are, the stored record has that id (its own, when the id attribute is `$$hashKey`), and it has the candidate's other fields but `$$hashKey`. Otherwise the candidate is appended and filed under its id |
| StoreAdd.AddStepKeeps | angular-collection.js:57-70 | a turn of `add` files the candidate, keeps every key and record already there, keeps the ids of identified records, and adds no record but the candidate |
| StoreAdd.AssignIdKeeps | angular-collection.js:57-59 | assigning a guid changes no record whose id is already truthy |
| StoreAdd.PlaceKeeps | angular-collection.js:61-70 | merging or appending an identified record files it and keeps everything already filed |
| StoreAdd.AddLoopKeeps | angular-collection.js:54-71 | after the loop, every candidate is identified and filed; every record that was stored is still stored under the same key; no other records appear |
| StoreAdd.PlaceStored | angular-collection.js:61-62 | merging a stored record into itself changes nothing |
| StoreAdd.PlaceNew | angular-collection.js:64-69 | a candidate whose key is not in `hash` is appended at the end and filed under its key, and the fields are unchanged |
| StoreAdd.PlaceMerge | angular-collection.js:61-62 | a candidate whose key is in `hash` is merged into the record filed there, with its fields copied over that record's fields |
| StoreAdd.AppendOne | angular-collection.js:64-69 | a candidate with a fresh key is appended, the fields are unchanged, and no id is drawn |
| StoreAdd.AddStoredIsNoop | angular-collection.js:54-71 | adding records that are already stored changes nothing and draws no id (`add` is idempotent) |
| StoreAdd.AddNewAppends | angular-collection.js:54-71 | a batch of identified records with distinct keys that are all new is appended in order, no fields change, and no id is drawn |
| StoreAdd.BatchDuplicatesMerge | angular-collection.js:54-71 | two candidates of one batch that share a new id become one record: the first is appended, the second's fields are copied onto it, and the array gains nothing else |
| StoreAdd.GetFindsStored | angular-collection.js:86-89 | `get` on a stored record returns that record |
| StoreAdd.GetById | angular-collection.js:86-89 | `get(id)` with a raw id returns `r` exactly when `r` is stored under the name `get` reads: the id's own property name, or the name of the id's truthy property `idAttribute` when it has one |
| StoreAdd.GetStringId | angular-collection.js:88 | with `idAttribute` set to `length`, `get("abc")` reads `hash["3"]`; with `id` it reads `hash["abc"]` |
| Values.PrimitiveProperty | angular-collection.js:88 | a string's `length` property is its length; a number, boolean, `null` or `undefined` has no property the model reads |
| Values.PrimitiveIndex | angular-collection.js:88 | reading index `k` of a string gives its `k`-th character |
| StoreSpec.Get | angular-collection.js:86-89 | `get(obj)`: the record `hash` files under the name `GetKey` gives, or undefined; its contract is stated by `StoreAdd.GetFindsStored` and `StoreAdd.GetById` |
| StoreAdd.IndexDetermined | angular-collection.js:65-69 | the array and the fields determine `hash`: two indexes that satisfy the invariant are equal |
| StoreSpec.GetKey | angular-collection.js:86-88 | `get(null)` and `get(undefined)` read nothing. A raw id is looked up under its truthy property `idAttribute` when it has one (a string's `length` or a character at an index), and otherwise under its own name. A record is looked up under its truthy id, and otherwise under "[object Object]" |
| StoreSpec.RemoveOne | angular-collection.js:164-166 | `delete hash[id]` and `splice` of the record; `StoreInvariant.RemoveOneIndexed` states its contract |
| StoreSpec.RemoveList | angular-collection.js:149-170 | `remove` over a list other than the array: each entry in turn until the first the array lacks; `StoreRemove.RemoveListAll` and `RemoveListStops` state its contract |
| StoreSpec.RemoveOwn | angular-collection.js:155-166 | `remove(this.array)`: turn `i` reads the live, already-spliced array; `StoreRemove.RemoveAllAsWritten` states its contract |
| StoreSpec.RemoveFrom | angular-collection.js:149-170 | the turns of `remove` from turn `i` on, for the array itself or another list |
| StoreSpec.Without | angular-collection.js:149-170 | the records of a list outside a set, in order: the reference `StoreRemove.RemoveListAll` compares `remove` with |
| StoreSpec.OddPositions | angular-collection.js:172-176 | the records at odd positions, in order: what `removeAll` leaves |
| StoreSpec.Filter | angular-collection.js:124-133 | `where`'s loop over the array, keeping the records whose test is `keep`; `StoreWhere.FilterMembers` and `FilterAppend` state its contract |
| StoreSpec.First | angular-collection.js:125-128 | the first record that passes, or undefined; `StoreWhere.FirstAt` and `FirstNone` state its contract |
| StoreSpec.IndexOf | angular-collection.js:159 | `indexOf` gives -1 exactly when the record is absent, and otherwise the first position holding it |
| StoreSpec.RemoveAt | angular-collection.js:165 | `splice(index, 1)` shortens the array by one |
| Values.Key | angular-collection.js:65-67 | `String(v)`: the property name `hash[v]` uses; `Values.NumKeyRoundTrip` and `Values.NumKeysInjective` state that numbers keep distinct names |
| StoreSpec.AssignId | angular-collection.js:57-59 | a record with a falsy id gets the guid as its id; `StoreInvariant.AssignIdIndexed` and `StoreAdd.AssignIdKeeps` state its contract |
| StoreSpec.Place | angular-collection.js:61-70 | merge into the record `get` finds, or append and file under the id; `StoreAdd.PlaceNew`, `PlaceMerge`, `PlaceStored` and `PlaceKeeps` state its contract |
| StoreSpec.AddStep | angular-collection.js:55-70 | one turn of `add`'s loop, with the count of ids drawn; `StoreAdd.AddStepOutcome` and `AddStepKeeps` state its contract |
| StoreSpec.AddLoop | angular-collection.js:54-71 | `add`'s loop over the whole batch, in order; `StoreAdd.AddLoopKeeps`, `AddStoredIsNoop`, `AddNewAppends` and `StoreInvariant.AddLoopIndexed` state its contract |
| StoreSpec.Add | angular-collection.js:44-76 | the loop, then `sort()` when the comparator is truthy and `options.sort` is not false; `StoreInvariant.AddIndexed` states its contract |
| StoreSpec.SortStore | angular-collection.js:78-84 | `sort()` leaves `hash` and the fields alone and permutes the array. A non-empty field-name comparator sorts it ascending by that field; any other comparator, a function included, leaves the order as it was |
| StoreSpec.EmptyComparatorKeepsOrder | angular-collection.js:78-84 | `sort()` with the empty string for comparator, which `orderBy` reads as "compare the records themselves", keeps the order, since plain objects all compare equal |
| Ordering.Insert | angular-collection.js:80 | inserting into a sorted list keeps it sorted and adds exactly that element |
| Ordering.SortBy | angular-collection.js:80 | the sort `orderBy` stands for returns a sorted permutation |
| Ordering.SortByKeepsTies | angular-collection.js:80 | a list whose elements all compare equal comes out unchanged (the model's choice for ties) |
| Ordering.LowerChar | angular-collection.js:80 | the lower-casing `orderBy` applies to strings maps `A` to `Z` onto `a` to `z` and leaves every other character alone |
| Ordering.CaseIgnored | angular-collection.js:80 | "a" sorts before "B", and `null`, whose `typeof` is "object", sorts after every number |
| Ordering.SortByCongruent | angular-collection.js:80 | the sort depends only on the keys of the elements it sorts |
| Ordering.ValueLeTotal | angular-collection.js:80 | any two field values are ordered one way or the other |
| Ordering.ValueLeTrans | angular-collection.js:80 | the order on field values is transitive |
| NgCollection.Collection.Sort | angular-collection.js:78-84 | `sort()` puts the array, reassigned to a new array when the comparator is a field name, in the order of `SortStore`; `hash`, `length` and `_chain` stay; the invariant holds |
| StoreInvariant.SortIndexed | angular-collection.js:78-84 | sorting keeps the invariant and `hash`, and yields a permutation with the same records |
| StoreInvariant.SortFrame | angular-collection.js:80 | the order `sort()` produces depends only on the fields of the stored records |
| StoreInvariant.AssignIdIndexed | angular-collection.js:57-59 | assigning a guid keeps the invariant and leaves the record with a truthy id |
| StoreInvariant.UnidentifiedNotStored | angular-collection.js:57-69 | a record with a falsy id is not stored |
| StoreInvariant.MergeKeepsKey | angular-collection.js:62 | merging a candidate into the record filed under the candidate's key keeps that record's key; the record takes the candidate's id, or keeps its own when the id attribute is `$$hashKey` |
| StoreInvariant.PlaceIndexed | angular-collection.js:61-70 | merging or appending an identified record keeps the invariant |
| StoreInvariant.AddStepIndexed | angular-collection.js:57-70 | one turn of `add` keeps the invariant |
| StoreInvariant.AddLoopIndexed | angular-collection.js:54-71 | the whole loop of `add` keeps the invariant |
| StoreInvariant.AddIndexed | angular-collection.js:44-76 | `add`, with its optional sort, keeps the invariant |
| StoreInvariant.IndexedRekey | angular-collection.js:62 | changing fields so that every stored record keeps a truthy id and the same key keeps the invariant |
| StoreInvariant.RemoveAtMembers | angular-collection.js:165 | splicing out position `i` of an array without repeats removes exactly that record and nothing else |
| StoreInvariant.RemoveOneIndexed | angular-collection.js:164-166 | removing a stored record keeps the invariant, removes exactly that record and shortens the array by one |
| StoreInvariant.RemoveListIndexed | angular-collection.js:149-170 | `remove` over any list keeps the invariant and leaves the fields alone |
| StoreInvariant.RemoveOwnIndexed | angular-collection.js:172-176 | `remove(this.array)` keeps the invariant |
| StoreInvariant.IndexSize | angular-collection.js:65-69 | `hash` has exactly as many keys as the array has records |
| StoreInvariant.IdsUnique | angular-collection.js:65-69 | two positions of the array hold records with different keys |
| StoreInvariant.PermutationDistinct | angular-collection.js:80 | a permutation of an array without repeats has none |
| NgCollection.Collection.Chain | angular-collection.js:252-256 | `chain()` sets `_chain` and changes nothing else, so the invariant is kept |
| NgCollection.Collection.Get | angular-collection.js:86-89 | `get(obj)` is `StoreSpec.Get` on the current fields, and returns only records that `hash` holds |
| NgCollection.Collection.Update | angular-collection.js:140-147 | `update(obj)` leaves the state of the corrected `StoreSpec.Update` (see Findings), and the invariant holds |
| NgCollection.Collection.MergeExisting | angular-collection.js:142-143 | the merge branch of `update` copies `obj`'s fields onto the record filed under `obj`'s id and keeps the invariant |
| StoreSpec.UpdateAsWritten | angular-collection.js:140-147 | `update(obj)` as written: merge into the record `get` finds, otherwise `add(obj)` |
| StoreSpec.Update | angular-collection.js:140-147 | the corrected `update`: merge only into the record filed under `obj`'s own truthy id, otherwise `add(obj)` |
| StoreFindings.UpdateIndexed | angular-collection.js:140-147 | the corrected `update` keeps the invariant |
| StoreFindings.UpdateAgreesOnIdentified | angular-collection.js:140-147 | for a record with a truthy id, the corrected `update` is the one written |
| StoreFindings.UpdateStoredIsNoop | angular-collection.js:140-147 | updating with a stored record changes nothing |
| StoreFindings.UpdateAsWrittenBreaksIndex | angular-collection.js:88 | as written, `update` with a record whose id is 0 merges it into the record filed under "[object Object]", which breaks the invariant; the corrected `update` appends the record instead |
| StoreFindings.UpdateAsWrittenMisfiles | angular-collection.js:143 | the `update` as written leaves a record filed under an id it no longer has |
| StoreFindings.UpdateObjectKeyAppends | angular-collection.js:144 | the corrected `update` appends the record that has no truthy id under a generated id |
| NgCollection.Collection.Remove | angular-collection.js:149-170 | `remove(models)` turns `hash` and the array into those of `RemoveFrom`. For any other list that is `RemoveList`; for the store's own array it is `RemoveOwn`. The invariant holds |
| NgCollection.Collection.RemoveLoop | angular-collection.js:155-167 | the loop runs from the first entry until the batch ends or an entry is missing, and reaches the state `RemoveFrom` gives |
| NgCollection.Collection.RemoveTurn | angular-collection.js:156-166 | one turn skips a falsy entry; it stops the call at an entry the array lacks; otherwise it splices the entry out, deletes its key from `hash` and decrements `length` |
| NgCollection.Collection.SpliceOut | angular-collection.js:164-166 | `delete hash[id]`, `splice(index, 1)` and `length--` give the state of `RemoveOne` and keep the invariant |
| StoreRemove.RemoveFromTurn | angular-collection.js:156-166 | one turn of `remove`: a read past the end of the live array skips to the next turn; an entry the array lacks ends the call with the store as it is; any other entry is spliced out (in the store's own array, the entry at the turn's index) before the remaining turns |
| StoreRemove.RemoveListAll | angular-collection.js:149-170 | removing distinct stored records drops exactly those and keeps the rest in order |
| StoreRemove.RemoveListStops | angular-collection.js:160-162 | an entry missing from the array ends the call: the entries after it are not removed |
| StoreRemove.WithoutRemoveAt | angular-collection.js:165 | splicing a record out is the same as dropping it from the array, keeping the order |
| StoreRemove.IndexOfDistinct | angular-collection.js:159 | in an array without repeats, `indexOf` finds each record at its own position |
| NgCollection.Collection.RemoveAll | angular-collection.js:172-176 | as written, `removeAll()` leaves exactly the records that were at odd positions, in order (see Findings), and the invariant holds |
| StoreRemove.RemoveAllAsWritten | angular-collection.js:155-165 | `remove(this.array)` with the bound `l` fixed up front removes the records at even positions and keeps the odd ones |
| StoreRemove.RemoveAllKeepsSecond | angular-collection.js:172-176 | with two or more records, `removeAll()` keeps half of them, and the first record kept is the second |
| StoreRemove.RemoveAllCorrected | angular-collection.js:172-176 | removing a separate list of all the records empties the array |
| StoreRemove.RemoveOwnTurns | angular-collection.js:155-166 | after turn `i` of `remove(this.array)`, the records at positions 0, 2, ..., 2i-2 are gone and the rest are in place |
| StoreRemove.RemoveOwnStep | angular-collection.js:159-165 | turn `i` of `remove(this.array)` splices out the record at original position 2i, which now sits at index `i` |
| StoreRemove.RemoveOwnPastEnd | angular-collection.js:157 | reads past the end of the shrunk array are skipped |
| StoreRemove.WithoutMatches | angular-collection.js:178-183 | dropping exactly the records that pass the test leaves the ones that fail it |
| StoreRemove.RemoveWhereKeepsRest | angular-collection.js:178-183 | `removeWhere` leaves exactly the records that do not match, in order |
| NgCollection.Collection.RemoveWhere | angular-collection.js:178-183 | without chain mode, the array keeps exactly the records that fail the test, in order, and `hash` loses the keys of the matches. In chain mode, with `_result` corrected as in Findings, nothing is removed. The invariant holds |
| NgCollection.Collection.RemoveMatches | angular-collection.js:180 | `remove(objects)` with the list of matches leaves the records that fail the test |
| NgCollection.Collection.Scan | angular-collection.js:124-133 | the loop collects the matches in array order, or stops at the first match when `returnFirst` is set; the records it returns are distinct and stored |
| NgCollection.Collection.Where | angular-collection.js:97-138 | a hit in first-match mode returns that record. Without chain mode, a miss returns undefined and the list mode returns a new array holding the matches in order. In chain mode, with `_result` corrected as in Findings, the result is a fresh chained collection of the matches (empty on a miss). With that correction, the store and the fields are unchanged and no id is drawn |
| NgCollection.Collection.ResultList | angular-collection.js:135-137 | the list of matches goes through `_result`, corrected as in Findings: a new array, or a chained collection holding them |
| NgCollection.Collection.Find | angular-collection.js:91-95 | without chain mode, `find` returns the first match or undefined; in chain mode, with `_result` corrected as in Findings, a match comes back as a chained collection holding just that record |
| Values.FieldIsMeansEqual | angular-collection.js:105-106 | `where('name', value)` selects a record exactly when its field strictly equals the value |
| Values.EmptyPatternMatchesAll | angular-collection.js:111-118 | a comparison object with no keys accepts every record |
| Values.CompareObject | angular-collection.js:104-109 | a string and a value become a one-key comparison object; any other non-function argument is the comparison object |
| Values.Matches | angular-collection.js:111-118 | the comparison-object test: every key of the object holds a value strictly equal to the record's field |
| Values.Test | angular-collection.js:100-118 | `compareFn(record)`: the function given, or the comparison-object test |
| Values.Extend | angular-collection.js:62 | `angular.extend(dst, src)` has the keys of both, except that `$$hashKey` is taken from `dst` only; it takes `src`'s value where `src` has any other key, and keeps `dst`'s elsewhere |
| StoreWhere.FilterMembers | angular-collection.js:125-133 | a record is selected exactly when it is in the array and passes the test |
| StoreWhere.FilterAppend | angular-collection.js:125-133 | the selection from a concatenation is the selection from each part in turn, so array order is kept |
| StoreWhere.FilterSplits | angular-collection.js:125-133 | the matches and the non-matches together account for every record |
| StoreWhere.FilterDistinct | angular-collection.js:125-133 | a selection from an array without repeats has none |
| StoreWhere.FilterStored | angular-collection.js:125-133 | the matches come from the array and have no repeats |
| StoreWhere.NothingSelected | angular-collection.js:125-133 | when no record passes, nothing is selected |
| StoreWhere.NoneBefore | angular-collection.js:125-128 | nothing selected from a prefix means no record of the prefix passes |
| StoreWhere.FirstAt | angular-collection.js:126-128 | `find` returns the record at the first position that passes |
| StoreWhere.FirstNone | angular-collection.js:135 | `find` returns undefined exactly when no record passes |
| NgCollection.Collection.Result | angular-collection.js:20-22 | without chain mode `_result` returns its argument. In chain mode it returns a fresh, valid, chained collection holding the same records under the store's own id attribute (see Findings), and it changes no field and draws no id |
| NgCollection.Collection.Rewrap | angular-collection.js:21 | `(new Collection(models)).chain()` gives a chained collection of exactly those records, and the fields of the store's records are unchanged |
| NgCollection.Collection.Rebuild | angular-collection.js:21 | the new collection files the given records in order, and it changes no field and draws no id |
| StoreSpec.WrapAsWritten | angular-collection.js:21 | `new Collection(models)` as `_result` builds it: the records re-added to an empty store under `id` |
| StoreSpec.Wrap | angular-collection.js:21 | the corrected chained result: the records re-added under the store's own id attribute |
| StoreFindings.WrapStored | angular-collection.js:21 | re-adding distinct stored records to an empty store under the store's own id attribute appends them all in order, changes no field and draws no id |
| StoreFindings.WrapSelection | angular-collection.js:21 | the chained result of `where` holds exactly the matches, over the same fields |
| StoreFindings.WrapAsWrittenCorrupts | angular-collection.js:21 | the store is keyed by `key`, and both its records have `id` 7. As written, chaining `where({})` yields one record and breaks the store's invariant. The corrected result yields both records |
| StoreFindings.WrapAsWrittenMerges | angular-collection.js:21 | as written, the second record is merged into the first and overwrites its `key` |
| StoreFindings.SharedIdMerge | angular-collection.js:21 | as written, adding the two records to an empty store under `id` keeps only the first, which takes the second's `key` |
| StoreFindings.SharedIdStoreSelection | angular-collection.js:111-133 | `where({})` selects every record of that store, in order |
| NgCollection.Collection.Last | angular-collection.js:185-187 | `last()` is undefined exactly on an empty array, and otherwise the final record |
| NgCollection.Collection.At | angular-collection.js:189-191 | `at(i)` is defined exactly for `0 <= i < size()`, and is then the one record `slice(i, i + 1)` gives |
| NgCollection.Collection.SizeAgrees | angular-collection.js:193-195 | `size()`, `length` and the number of ids in `hash` are equal |
| NgCollection.Collection.Slice | angular-collection.js:262-264 | `slice(begin, end)` is the run of consecutive records from where `begin` points to where `end` points, and is empty when `end` is not past `begin` |
| StoreSpec.SliceBound | angular-collection.js:263 | a missing bound is its default (0 for `begin`, the length for `end`); a negative bound counts from the end; the result is clamped to 0 below and to the length above |
| StoreSpec.SliceOf | angular-collection.js:263 | `array.slice(begin, end)`; `StoreAccess.SliceContiguous`, `SliceSplit` and `SliceWhole` state its contract |
| StoreAccess.SliceWhole | angular-collection.js:262-264 | `slice()` copies the whole array |
| StoreAccess.SliceSplit | angular-collection.js:262-264 | adjacent slices concatenate to the slice over both ranges |
| StoreAccess.SliceFromEnd | angular-collection.js:262-264 | `slice(-k)` is the last `k` records |
| StoreAccess.SliceClamped | angular-collection.js:262-264 | an end past the array is the same as no end |
| StoreAccess.SliceContiguous | angular-collection.js:262-264 | every slice is a contiguous run of the array |
| StoreAccess.AtIsSlice | angular-collection.js:189-191 | the record at `i` is the one-element slice at `i` |
| NgCollection.Collection.Pluck | angular-collection.js:244-250 | without chain mode, `pluck(key)` gives the field `key` of each record, in array order. In chain mode an empty store gives an empty chained collection, and any other store raises a TypeError: `_result` re-adds the values under `id`, and strict mode refuses to read `id` from `null` or `undefined` or to set it on any other primitive. Without chain mode, or on an empty store, no id is drawn. Otherwise one id is drawn exactly when the first value is a boolean, number or string, because `_guid()` on line 58 runs before the write fails |
| NgCollection.Collection.PluckValues | angular-collection.js:245-247 | the loop of `map` gives, in array order, each record's field `key` |
| NgCollection.Collection.ThrowOnFirst | angular-collection.js:57-58 | when the re-added first value is `null` or `undefined`, the read on line 57 throws and no id is drawn; for any other primitive one id is drawn before the write on line 58 throws |
| StoreSpec.PluckOf | angular-collection.js:244-247 | the plucked list has one entry per record: that record's field `key` |
| StoreAccess.PluckAppend | angular-collection.js:244-247 | plucking a concatenation plucks each part in turn |
| Values.DecimalRoundTrip | angular-collection.js:65-67 | the decimal name of a number reads back as that number |
| Values.NumKeyRoundTrip | angular-collection.js:65-67 | a numeric id's property name reads back as the id |
| Values.NumKeysInjective | angular-collection.js:65-67 | two different numeric ids never share a property name in `hash` |

## Left out

- Angular wiring: the module and factory registration, the `$filter`/`$parse` injection and the enclosing function (lines 1-5, 305-307) are framework plumbing.
- `Math.random` and floating point in `_guid`: the model takes each `s4()`'s 16-bit draw from a fixed stream `GuidSource.draws`. A generated id that collides with a stored one takes the merge branch, as in the code.
- StoreSpec.SortStore: `orderBy` is modelled by its comparison in Angular 1.4 and earlier. Values of different `typeof` are ordered by the type's name: booleans, numbers, `null`, strings, then `undefined`. Two strings are compared after lower-casing. The library does not say which Angular it runs on, and later versions place `null` differently:
  - Angular 1.5 compares `null` as the string "null", so it sorts among the strings;
  - Angular 1.6 and later put `null` after every string and before `undefined`.

  Several parts of `orderBy` are left out:
  - lower-casing beyond the letters `A` to `Z`;
  - string order by UTF-16 code unit, where the model compares Unicode scalar values;
  - a `-` or `+` prefix on the comparator, which sets the direction;
  - a dotted comparator such as `a.b`, which `orderBy` reads as a path;
  - any comparator other than a plain identifier or the empty string. `orderBy` evaluates the comparator as an Angular expression: a constant such as `"1"` gives every record the same key, `"first-name"` is a subtraction, and `"first name"` or `"constructor"` make the expression parser throw, which happens at line 73 after `add` has already changed the store. The model reads the field of that name for every non-empty comparator;
  - the order among elements that compare equal. `Array.prototype.sort` leaves it unspecified; the model keeps the input order (`Ordering.SortByKeepsTies`).
- `filter`, `toJSON`, `each` and `map`: these are thin wrappers over foreign Angular calls or host detection (lines 201-242). `pluck` reads each field directly instead of going through `map`.
- `extend`, `getInstance`, `clone` and the `initialize` hook (lines 42, 258-260, 273-303): prototype-chain and subclassing plumbing.
- `find` on a miss in chain mode (line 94 with 137): the empty chained collection is re-wrapped as if it were a record. `NgCollection.Collection.Find` states nothing about that case.
- Field values are primitives (`undefined`, `null`, booleans, integers, strings). Objects, arrays, fractional numbers and `NaN` as field values are not modelled, and neither is property-name coercion of non-integer numbers.
- Values.Key: numbers are unbounded integers written out in full decimal. JavaScript's doubles are not modelled: no integer beyond 2^53 is exact, and `String(n)` uses exponent form from 10^21 on (`String(1e21)` is "1e+21"). So two ids that share a `hash` entry in JavaScript can have different names in the model.
- Values.PrimitiveProperty: a string's `length` and indices count Unicode scalar values, where JavaScript counts UTF-16 code units (`"😀".length` is 2), so the two differ on characters outside the Basic Multilingual Plane. A primitive's inherited properties, such as a string's `toString` or a number's `toFixed`, are read as `undefined`. So an `idAttribute` that names such a method does not change the name `get` reads for a raw id.
- Values.Extend: `extend` deletes `dst`'s `$$hashKey` when it is present but falsy; the model keeps it. `ng-repeat` writes only non-empty strings there.
- Lists passed to `add` or `remove` hold records: explicit `null` entries inside a list, and `update(null)`, are not modelled. `remove`'s falsy-entry skip appears only for reads past the end of the array.
- A `where` predicate function is modelled as a pure function of the record's fields. It cannot change the store.
- A function comparator is never called: `sort` reorders only for a string comparator, so the model does not represent the function.
- `add` reads the list it is given once, on entry, so a list that changes while `add` runs is not modelled.
- `deepCompare` is accepted by `where`, `find` and `removeWhere`, but the code never reads it.
- Inherited properties of a plain object (`hash["constructor"]` and the like) are not modelled. `hash` holds only the ids put into it.
- A caller changing the id of a returned record breaks the index from outside the store. The model does not cover this.
- NgCollection.Collection.Sort: the model always gives a field-name `sort()` a fresh array, whereas `orderBy` may hand back a copy or the same array. Aliasing through an array obtained with `all()` before the sort is therefore not captured.

## Findings

| source | as written | input that shows it | evidently intended | confidence | as-written member | corrected member |
|---|---|---|---|---|---|---|
| angular-collection.js:172-176 | `removeAll()` passes the live array to `remove`. `remove` fixes the bound `l` first and then splices the array it indexes, which skips every other record | a store holding records a, b, c, d ends holding b, d | the store ends empty | not executed | NgCollection.Collection.RemoveAll, StoreRemove.RemoveAllKeepsSecond | StoreRemove.RemoveAllCorrected |
| angular-collection.js:21 | in chain mode, `_result` builds `new Collection(models)` without options, so the matches are re-added under the attribute `id`, whatever the store's `idAttribute` is | a store keyed by `key` holding two records that both have `id: 7`; in chain mode, `where({})` merges the second record into the first and overwrites the first record's `key` | the chained collection uses the store's own `idAttribute`, holds the same records and changes none of them | not executed | StoreFindings.WrapAsWrittenCorrupts | StoreFindings.WrapSelection (used by NgCollection.Collection.Rebuild) |
| angular-collection.js:88 and 143 | `get(obj)` looks up `hash[obj]` when `obj`'s id is falsy, and the property name of a plain object is "[object Object]". `update` then extends the record found there with `obj`'s falsy id | a store holding a record whose id is the string "[object Object]", then `update` of a record whose id is `0` | a record without a truthy id is added, as `add` would | not executed | StoreFindings.UpdateAsWrittenBreaksIndex | StoreFindings.UpdateIndexed (used by NgCollection.Collection.Update) |
