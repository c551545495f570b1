/** The `Collection` object of `$collection`: records kept in an array in insertion
    (or comparator) order, indexed by id in a plain object. Each method is proved to
    change the object's state as the matching function of `StoreSpec` says; the
    properties of those functions are proved in the `Store*` modules. */
module NgCollection {
  import opened Values
  import opened Ordering
  import opened StoreSpec
  import StoreInvariant
  import StoreAdd
  import StoreRemove
  import StoreWhere
  import StoreFindings
  import StoreAccess
  import Guid

  /** A record: a plain object whose own properties are `fields`. */
  class Record {
    var fields: Fields

    constructor (f: Fields)
      ensures fields == f
    {
      fields := f;
    }
  }

  /** A JavaScript array of records, shared by reference. */
  class JsArray {
    var items: seq<Record>

    constructor (s: seq<Record>)
      ensures items == s
    {
      items := s;
    }
  }

  /** Where `_guid` gets its randomness: a fixed stream of draws and how many were used. */
  class GuidSource {
    const draws: nat -> Guid.Draw
    var used: nat

    constructor (d: nat -> Guid.Draw)
      ensures draws == d && used == 0
    {
      draws := d;
      used := 0;
    }

    /** `_guid()`. */
    method Next() returns (g: string)
      modifies this
      ensures g == Guid.Format(draws(old(used))) && used == old(used) + 1
    {
      g := Guid.Format(draws(used));
      used := used + 1;
    }
  }

  /** What `add` and `remove` accept: a falsy value, one record, or an array. */
  datatype Models = Falsy | One(record: Record) | Many(list: JsArray)

  /** The records a `Models` stands for: `models ? [models] : []` when it is not an array. */
  function Batch(m: Models): seq<Record>
    reads if m.Many? then {m.list} else {}
  {
    match m
    case Falsy => []
    case One(r) => [r]
    case Many(l) => l.items
  }

  /** The fields of the records `rs`, as a map. */
  function Snapshot(rs: seq<Record>): (m: map<Record, Fields>)
    reads rs
    ensures forall r :: r in rs ==> r in m && m[r] == r.fields
  {
    map r | r in rs :: r.fields
  }

  /** The constructor's `options`: `comparator` (`NoComparator` when not given) and
      `idAttribute` (`""` when not given or falsy). */
  datatype Options = Options(comparator: Comparator, idAttribute: string)

  /** What `where`, `find` and `_result` hand back: the plain array of matches, one
      record, `undefined`, or (in chain mode) a new chained collection. */
  datatype Selection = Records(list: JsArray) | Found(record: Record) | Nothing | Chained(coll: Collection)

  /** What `pluck` hands back: the values, the empty chained collection, or the
      `TypeError` strict mode raises when chain mode re-adds the values as records. */
  datatype Plucked = Values(vals: seq<Value>) | ChainedValues(coll: Collection) | TypeError

  class Collection {
    var arr: JsArray
    var hash: map<string, Record>
    var length: int
    const idAttribute: string
    const comparator: Comparator
    var chained: bool

    /** The store as a value, with the fields of the records of the array and of `extra`. */
    ghost function AbsWith(extra: seq<Record>): Store<Record>
      reads this, arr, arr.items, extra
    {
      Store(arr.items, hash, Snapshot(arr.items + extra))
    }

    ghost function Abs(): Store<Record>
      reads this, arr, arr.items
    {
      Store(arr.items, hash, Snapshot(arr.items))
    }

    /** The object's state is `st`, for the records `rs`. */
    ghost predicate Agrees(st: Store<Record>, rs: seq<Record>)
      reads this, arr, rs
    {
      arr.items == st.items && hash == st.hash && forall r :: r in rs ==> r.fields == FieldsIn(st.heap, r)
    }

    /** `length` counts the array, and the array and `hash` index each other. */
    ghost predicate Valid()
      reads this, arr, arr.items
    {
      length == |arr.items| && idAttribute != "" && Indexed(Abs(), idAttribute)
    }

    /** `new Collection(models, options)`: `_reset()`, then `add(models)` when `models`
        is truthy. */
    constructor (models: Models, options: Options, ids: GuidSource)
      modifies (set r | r in Batch(models)), ids
      ensures Valid() && !chained && fresh(arr)
      ensures comparator == options.comparator
      ensures idAttribute == if options.idAttribute != "" then options.idAttribute else "id"
      ensures var R := StoreSpec.Add(Reset(old(Snapshot(Batch(models)))), idAttribute, comparator,
                                     old(Batch(models)), false, ids.draws, old(ids.used));
        Agrees(R.0, old(Batch(models))) && ids.used == R.1
    {
      ghost var snap := Snapshot(Batch(models));
      comparator := options.comparator;
      idAttribute := if options.idAttribute != "" then options.idAttribute else "id";
      length := 0;
      hash := map[];
      arr := new JsArray([]);
      chained := false;
      new;
      assert Abs() == Reset<Record>(map[]);
      ResetIndexed<Record>(map[], idAttribute);
      if !models.Falsy? {
        assert AbsWith(Batch(models)) == Reset(snap);
        Add(models, false, ids);
      } else {
        ghost var R := StoreSpec.Add(Reset<Record>(map[]), idAttribute, comparator, [], false, ids.draws, ids.used);
        assert R.0.items == [] && R.0.hash == map[] && R.1 == ids.used;
      }
    }

    /** `_reset()`. */
    method ResetStore()
      modifies this
      ensures Valid() && arr.items == [] && hash == map[] && fresh(arr)
      ensures chained == old(chained)
      requires idAttribute != ""
    {
      length := 0;
      hash := map[];
      arr := new JsArray([]);
      ResetIndexed<Record>(map[], idAttribute);
      assert Abs() == Reset<Record>(map[]);
    }

    /** The state is `st` over the records `rs`, which include the array: then the store
        invariant of `st` is the object's. */
    lemma AgreesValid(st: Store<Record>, rs: seq<Record>)
      requires Agrees(st, rs) && Indexed(st, idAttribute) && length == |arr.items| && idAttribute != ""
      requires forall r :: r in arr.items ==> r in rs
      ensures Valid()
    {
      StoreSpec.IndexedFrame(st, Snapshot(arr.items), idAttribute);
      assert st.(heap := Snapshot(arr.items)) == Abs();
    }

    /** A step that leaves the object's own fields and the records' fields as they were
        leaves the store as it was. */
    twostate lemma Kept()
      requires old(arr) == arr && old(arr.items) == arr.items && old(hash) == hash && old(length) == length
      requires forall r :: r in arr.items ==> r.fields == old(r.fields)
      ensures Abs() == old(Abs()) && (old(Valid()) ==> Valid())
    {
      assert Snapshot(arr.items) == old(Snapshot(arr.items));
    }

    /** `add(models, options)`; `noSort` stands for `options.sort === false`. The records
        are read from a copy of the list: when the list is the array itself, every record
        merges into itself and nothing is pushed (`StoreAdd.AddStoredIsNoop`). */
    method Add(models: Models, noSort: bool, ids: GuidSource)
      requires Valid()
      modifies this, arr, arr.items, Batch(models), ids
      ensures Valid()
      ensures chained == old(chained) && (arr == old(arr) || fresh(arr))
      ensures var R := StoreSpec.Add(old(AbsWith(Batch(models))), idAttribute, comparator,
                                     old(Batch(models)), noSort, ids.draws, old(ids.used));
        Agrees(R.0, old(arr.items + Batch(models))) && ids.used == R.1
    {
      var batch := Batch(models);
      ghost var all := arr.items + batch;
      ghost var st0 := AbsWith(batch);
      assert st0 == old(AbsWith(Batch(models))) && all == old(arr.items + Batch(models));
      StoreSpec.IndexedFrame(Abs(), st0.heap, idAttribute);
      assert Abs().(heap := st0.heap) == st0;
      ghost var used0 := ids.used;
      AddBatch(batch, all, st0, ids);
      FinishAdd(st0, batch, all, ids.draws, used0, noSort);
      assert used0 == old(ids.used);
    }

    /** `add`'s loop: each record of `batch` in turn, its fields and the array's read live. */
    method AddBatch(batch: seq<Record>, ghost all: seq<Record>, ghost st0: Store<Record>, ids: GuidSource)
      requires Agrees(st0, all) && length == |arr.items|
      requires forall r :: r in arr.items ==> r in all
      requires forall k :: k in hash ==> hash[k] in all
      requires forall j :: 0 <= j < |batch| ==> batch[j] in all
      modifies this, arr, all, ids
      ensures var R := AddLoop(st0, idAttribute, batch, ids.draws, old(ids.used));
        Agrees(R.0, all) && ids.used == R.1
      ensures arr == old(arr) && length == |arr.items| && chained == old(chained)
      ensures forall r :: r in arr.items ==> r in all
    {
      ghost var used0 := ids.used;
      assert batch[..0] == [];
      ghost var cur := st0;
      var i := 0;
      while i < |batch|
        invariant 0 <= i <= |batch|
        invariant arr == old(arr) && length == |arr.items| && chained == old(chained)
        invariant forall r :: r in arr.items ==> r in all
        invariant forall k :: k in hash ==> hash[k] in all
        invariant (cur, ids.used) == AddLoop(st0, idAttribute, batch[..i], ids.draws, used0)
        invariant Agrees(cur, all)
      {
        var m := batch[i];
        ghost var next := AddStep(cur, idAttribute, m, ids.draws, ids.used);
        StoreAdd.AddLoopTurn(st0, idAttribute, batch, i, ids.draws, used0);
        AddOne(m, cur, all, ids);
        cur := next.0;
        i := i + 1;
      }
      assert batch[..i] == batch;
    }

    /** The end of `add`: `sort()` when there is a comparator and sorting is not turned off. */
    method FinishAdd(ghost st0: Store<Record>, ghost batch: seq<Record>, ghost all: seq<Record>,
                     ghost draws: nat -> Guid.Draw, ghost used0: nat, noSort: bool)
      requires Indexed(st0, idAttribute) && length == |arr.items| && idAttribute != ""
      requires Agrees(AddLoop(st0, idAttribute, batch, draws, used0).0, all)
      requires forall r :: r in arr.items ==> r in all
      modifies this
      ensures var F := StoreSpec.Add(st0, idAttribute, comparator, batch, noSort, draws, used0);
        Agrees(F.0, all) && F.1 == AddLoop(st0, idAttribute, batch, draws, used0).1 && Valid()
      ensures chained == old(chained)
      ensures arr == old(arr) || fresh(arr)
    {
      ghost var R := AddLoop(st0, idAttribute, batch, draws, used0).0;
      StoreInvariant.AddLoopIndexed(st0, idAttribute, batch, draws, used0);
      var sorting := ComparatorTruthy(comparator) && !noSort;
      AgreesValid(R, all);
      if sorting {
        SortAgreeing(R, all);
      }
    }

    /** The `sort()` that ends `add`, on a state that agrees with `R`. */
    method SortAgreeing(ghost R: Store<Record>, ghost all: seq<Record>)
      requires Valid() && Agrees(R, all) && Indexed(R, idAttribute)
      requires forall r :: r in arr.items ==> r in all
      modifies this
      ensures Agrees(SortStore(R, comparator), all) && Valid()
      ensures chained == old(chained) && (arr == old(arr) || fresh(arr))
    {
      forall x | x in R.items ensures FieldsIn(Snapshot(arr.items), x) == FieldsIn(R.heap, x) {
        assert x in all;
      }
      StoreInvariant.SortFrame(R, Snapshot(arr.items), comparator);
      assert R.(heap := Snapshot(arr.items)) == Abs();
      Sort();
    }

    /** One turn of `add`'s loop: give `m` an id if it has none, then merge it into the
        record `get` finds or push it and file it under its id. */
    method AddOne(m: Record, ghost R: Store<Record>, ghost all: seq<Record>, ids: GuidSource)
      requires Agrees(R, all) && m in all
      requires forall r :: r in arr.items ==> r in all
      requires forall k :: k in hash ==> hash[k] in all
      requires length == |arr.items|
      modifies this, arr, all, ids
      ensures var S := AddStep(R, idAttribute, m, ids.draws, old(ids.used));
        Agrees(S.0, all) && ids.used == S.1
      ensures arr == old(arr) && length == |arr.items| && forall r :: r in arr.items ==> r in all
      ensures forall k :: k in hash ==> hash[k] in all
      ensures chained == old(chained)
    {
      ghost var R1 := AssignId(R, idAttribute, m, Guid.Format(ids.draws(ids.used)));
      AssignIdTo(m, R, all, ids);
      PlaceOne(m, R1, all);
    }

    /** The first half of a turn: `m[idAttribute] = _guid()` when `m` has no truthy id. */
    method AssignIdTo(m: Record, ghost R: Store<Record>, ghost all: seq<Record>, ids: GuidSource)
      requires Agrees(R, all) && m in all
      modifies m, ids
      ensures Agrees(AssignId(R, idAttribute, m, Guid.Format(ids.draws(old(ids.used)))), all)
      ensures ids.used == AddStep(R, idAttribute, m, ids.draws, old(ids.used)).1
      ensures Truthy(Field(m.fields, idAttribute))
    {
      if !Truthy(Field(m.fields, idAttribute)) {
        ghost var R1 := AssignId(R, idAttribute, m, Guid.Format(ids.draws(ids.used)));
        var g := ids.Next();
        m.fields := m.fields[idAttribute := Str(g)];
        forall r | r in all ensures r.fields == FieldsIn(R1.heap, r) {
          if r != m {
            assert r.fields == FieldsIn(R.heap, r);
          }
        }
      }
    }

    /** The second half of a turn: merge `m` into the record filed under its id, or push
        it and file it. */
    method PlaceOne(m: Record, ghost R: Store<Record>, ghost all: seq<Record>)
      requires Agrees(R, all) && m in all
      requires forall r :: r in arr.items ==> r in all
      requires forall k :: k in hash ==> hash[k] in all
      requires length == |arr.items| && Truthy(Field(m.fields, idAttribute))
      modifies this, arr, all
      ensures Agrees(Place(R, idAttribute, m), all)
      ensures arr == old(arr) && length == |arr.items| && forall r :: r in arr.items ==> r in all
      ensures forall k :: k in hash ==> hash[k] in all
      ensures chained == old(chained)
    {
      var existing := HashAt(hash, GetKey(idAttribute, RecordWith(m.fields)));
      assert existing == StoreSpec.Get(R, idAttribute, ByRecord(m));
      if existing.Some? {
        var e := existing.value;
        assert e in all;
        MergeFields(e, m, R, all);
      } else {
        hash := hash[Key(Field(m.fields, idAttribute)) := m];
        arr.items := arr.items + [m];
        length := length + 1;
      }
    }

    /** `_.extend(existing, model)`. */
    method MergeFields(e: Record, m: Record, ghost R: Store<Record>, ghost all: seq<Record>)
      requires Agrees(R, all) && e in all && m in all
      modifies e
      ensures Agrees(R.(heap := R.heap[e := Extend(FieldsOf(R, e), FieldsOf(R, m))]), all)
    {
      ghost var heap := R.heap[e := Extend(FieldsOf(R, e), FieldsOf(R, m))];
      e.fields := Extend(e.fields, m.fields);
      forall r | r in all ensures r.fields == FieldsIn(heap, r) {
        if r != e {
          assert r.fields == FieldsIn(R.heap, r);
        }
      }
    }

    /** `sort()`: with a field name for comparator, `array` becomes a new array holding the
        records ordered by that field (the empty name keeps their order); otherwise
        nothing happens. */
    method Sort()
      requires Valid()
      modifies this
      ensures Valid()
      ensures arr.items == SortStore(old(Abs()), comparator).items && hash == old(hash)
      ensures length == old(length)
      ensures chained == old(chained)
      ensures if comparator.FieldName? then fresh(arr) else arr == old(arr)
    {
      if comparator.FieldName? {
        ghost var pre := Abs();
        var key := SortKey(Snapshot(arr.items), comparator.name);
        arr := new JsArray(SortBy(arr.items, key));
        StoreInvariant.SortIndexed(pre, comparator, idAttribute);
        AgreesValid(SortStore(pre, comparator), pre.items);
      }
    }

    /** `chain()`: from now on results are wrapped; nothing unsets it. */
    method Chain()
      modifies this
      ensures old(Valid()) ==> Valid()
      ensures chained && arr == old(arr) && hash == old(hash) && length == old(length)
    {
      chained := true;
    }

    /** The records an argument of `get` stands for. */
    static function ArgRecords(arg: GetArg<Record>): seq<Record> {
      if arg.ByRecord? then [arg.h] else []
    }

    /** `get(obj)`: `undefined` for `null` or `undefined`, otherwise what `hash` files
        under `obj[idAttribute] || obj`. */
    function Get(arg: GetArg<Record>): (r: Option<Record>)
      reads this, arr, arr.items, ArgRecords(arg)
      ensures r == StoreSpec.Get(AbsWith(ArgRecords(arg)), idAttribute, arg)
      ensures r.Some? ==> r.value in hash.Values
    {
      var t := if arg.ByRecord? then RecordWith(arg.h.fields) else RawId(arg.v);
      assert t == TargetOf(AbsWith(ArgRecords(arg)), arg);
      HashAt(hash, GetKey(idAttribute, t))
    }

    /** `update(obj)`: merge `obj` into the record filed under its own truthy id, or else
        `add(obj)`. */
    method Update(obj: Record, ids: GuidSource)
      requires Valid()
      modifies this, arr, arr.items, obj, ids
      ensures Valid()
      ensures chained == old(chained) && (arr == old(arr) || fresh(arr))
      ensures var R := StoreSpec.Update(old(AbsWith([obj])), idAttribute, comparator, obj, ids.draws, old(ids.used));
        Agrees(R.0, old(arr.items + [obj])) && ids.used == R.1
    {
      var id := Field(obj.fields, idAttribute);
      if Truthy(id) && Key(id) in hash {
        MergeExisting(obj, ids);
      } else {
        ghost var st := AbsWith([obj]);
        assert StoreSpec.Update(st, idAttribute, comparator, obj, ids.draws, ids.used)
          == StoreSpec.Add(st, idAttribute, comparator, [obj], false, ids.draws, ids.used);
        assert AbsWith(Batch(One(obj))) == st && arr.items + Batch(One(obj)) == arr.items + [obj];
        Add(One(obj), false, ids);
      }
    }

    /** `update`'s first branch: `angular.extend(existing, obj)`. */
    method MergeExisting(obj: Record, ids: GuidSource)
      requires Valid() && Truthy(Field(obj.fields, idAttribute)) && Key(Field(obj.fields, idAttribute)) in hash
      modifies hash[Key(Field(obj.fields, idAttribute))]
      ensures Valid()
      ensures var R := StoreSpec.Update(old(AbsWith([obj])), idAttribute, comparator, obj, ids.draws, ids.used);
        Agrees(R.0, old(arr.items + [obj])) && ids.used == R.1
    {
      ghost var st := AbsWith([obj]);
      ghost var all := arr.items + [obj];
      StoreSpec.IndexedFrame(Abs(), st.heap, idAttribute);
      assert Abs().(heap := st.heap) == st;
      StoreFindings.UpdateIndexed(st, idAttribute, comparator, obj, ids.draws, ids.used);
      var e := hash[Key(Field(obj.fields, idAttribute))];
      assert e in all;
      MergeFields(e, obj, st, all);
      AgreesValid(StoreSpec.Update(st, idAttribute, comparator, obj, ids.draws, ids.used).0, all);
    }

    /** `array.splice(index, 1)` and `delete hash[model[idAttribute]]`, with `length--`. */
    method SpliceOut(model: Record, index: int, ghost heap: map<Record, Fields>)
      requires 0 <= index < |arr.items| && index == IndexOf(arr.items, model)
      requires Indexed(Store(arr.items, hash, heap), idAttribute) && length == |arr.items|
      requires model.fields == FieldsIn(heap, model)
      modifies this, arr
      ensures Store(arr.items, hash, heap) == RemoveOne(old(Store(arr.items, hash, heap)), idAttribute, model)
      ensures Indexed(Store(arr.items, hash, heap), idAttribute) && length == |arr.items|
      ensures arr == old(arr) && chained == old(chained)
      ensures forall r :: r in arr.items ==> r in old(arr.items)
    {
      StoreInvariant.RemoveOneIndexed(Store(arr.items, hash, heap), idAttribute, model);
      hash := hash - {Key(Field(model.fields, idAttribute))};
      arr.items := RemoveAt(arr.items, index);
      length := length - 1;
    }

    /** `remove(models)`: each entry in turn, read from the list as it stands at that
        turn; an entry that is not in the array ends the call. When the list is the array
        itself the splices shift the later records down under the loop's index. */
    method Remove(models: Models)
      requires Valid()
      modifies this, arr
      ensures Valid() && arr == old(arr) && chained == old(chained)
      ensures var S := RemoveFrom(old(Abs()), idAttribute, models.Many? && models.list == arr, old(Batch(models)), 0);
        arr.items == S.items && hash == S.hash
    {
      ghost var st0 := Abs();
      ghost var own := models.Many? && models.list == arr;
      ghost var batch0 := Batch(models);
      ghost var goal := RemoveFrom(st0, idAttribute, own, batch0, 0);
      assert batch0[0..] == batch0;
      RemoveLoop(models, own, batch0, st0.heap, goal);
      AgreesValid(Store(arr.items, hash, st0.heap), arr.items);
    }

    /** The loop of `remove`, run from the first entry of the list to its end or to the
        first entry that stops it. */
    method RemoveLoop(models: Models, ghost own: bool, ghost batch0: seq<Record>, ghost heap: map<Record, Fields>, ghost goal: Store<Record>)
      requires own == (models.Many? && models.list == arr) && batch0 == Batch(models)
      requires length == |arr.items| && Indexed(Store(arr.items, hash, heap), idAttribute)
      requires forall r :: r in arr.items ==> r.fields == FieldsIn(heap, r)
      requires RemoveFrom(Store(arr.items, hash, heap), idAttribute, own, batch0, 0) == goal
      modifies this, arr
      ensures arr == old(arr) && chained == old(chained) && length == |arr.items|
      ensures Indexed(Store(arr.items, hash, heap), idAttribute)
      ensures forall r :: r in arr.items ==> r.fields == FieldsIn(heap, r)
      ensures Store(arr.items, hash, heap) == goal
    {
      var l := |Batch(models)|;
      var i, stop := 0, false;
      while i < l && !stop
        invariant 0 <= i <= l == |batch0|
        invariant arr == old(arr) && chained == old(chained) && length == |arr.items|
        invariant Indexed(Store(arr.items, hash, heap), idAttribute)
        invariant forall r :: r in arr.items ==> r.fields == FieldsIn(heap, r)
        invariant own ==> models.list == arr
        invariant models.Many? && !own ==> models.list.items == batch0
        invariant stop ==> Store(arr.items, hash, heap) == goal
        invariant !stop ==> RemoveFrom(Store(arr.items, hash, heap), idAttribute, own, batch0, i) == goal
      {
        stop := RemoveTurn(models, i, own, batch0, heap, goal);
        i := i + 1;
      }
      assert !stop ==> batch0[l..] == [];
    }

    /** Turn `i` of `remove`: skip a read past the end of the list, stop at an entry the
        array does not hold, or splice the entry out. */
    method RemoveTurn(models: Models, i: nat, ghost own: bool, ghost batch0: seq<Record>, ghost heap: map<Record, Fields>,
                      ghost goal: Store<Record>)
      returns (stop: bool)
      requires i < |batch0| && own == (models.Many? && models.list == arr)
      requires !own ==> Batch(models) == batch0
      requires Indexed(Store(arr.items, hash, heap), idAttribute) && length == |arr.items|
      requires forall r :: r in arr.items ==> r.fields == FieldsIn(heap, r)
      requires RemoveFrom(Store(arr.items, hash, heap), idAttribute, own, batch0, i) == goal
      modifies this, arr
      ensures arr == old(arr) && chained == old(chained) && length == |arr.items|
      ensures Indexed(Store(arr.items, hash, heap), idAttribute)
      ensures forall r :: r in arr.items ==> r.fields == FieldsIn(heap, r)
      ensures stop ==> Store(arr.items, hash, heap) == goal
      ensures !stop ==> RemoveFrom(Store(arr.items, hash, heap), idAttribute, own, batch0, i + 1) == goal
    {
      var list := Batch(models);
      StoreRemove.RemoveFromTurn(Store(arr.items, hash, heap), idAttribute, own, batch0, i, list);
      stop := false;
      if i < |list| {
        var model := list[i];
        var index := IndexOf(arr.items, model);
        if index == -1 {
          stop := true;
        } else {
          SpliceOut(model, index, heap);
        }
      }
    }

    /** `removeAll()`, which is `remove(this.array)`: as written, only the records at
        even positions go (`StoreRemove.RemoveAllAsWritten`). */
    method RemoveAll()
      requires Valid()
      modifies this, arr
      ensures Valid() && arr == old(arr) && chained == old(chained)
      ensures arr.items == OddPositions(old(arr.items))
      ensures hash == RemoveOwn(old(Abs()), idAttribute, 0, old(|arr.items|)).hash
    {
      ghost var st0 := Abs();
      Remove(Many(arr));
      assert RemoveFrom(st0, idAttribute, true, st0.items, 0) == RemoveOwn(st0, idAttribute, 0, |st0.items|);
      StoreRemove.RemoveAllAsWritten(st0, idAttribute);
    }

    /** `_result(models)`: the value itself, or in chain mode a new chained collection
        built from it, here under this store's own id attribute. */
    method Result(models: Models, ids: GuidSource) returns (s: Selection)
      requires Valid() && Distinct(Batch(models))
      requires forall r :: r in Batch(models) ==> r in arr.items
      modifies (set r | r in Batch(models)), ids
      ensures !chained ==> s == match models case Falsy => Nothing case One(r) => Found(r) case Many(l) => Records(l)
      ensures chained ==>
        s.Chained? && fresh(s.coll) && s.coll.Valid() && s.coll.chained
        && s.coll.arr.items == old(Batch(models)) && s.coll.idAttribute == idAttribute
      ensures Valid() && ids.used == old(ids.used)
      ensures forall r :: r in arr.items ==> r.fields == old(r.fields)
    {
      if !chained {
        s := match models case Falsy => Nothing case One(r) => Found(r) case Many(l) => Records(l);
      } else {
        var c := Rewrap(models, ids);
        s := Chained(c);
      }
    }

    /** The chained half of `_result`: `new Collection(models, {idAttribute})` in chain
        mode, which files the given stored records, in order, without touching them. */
    method Rewrap(models: Models, ids: GuidSource) returns (c: Collection)
      requires Valid() && Distinct(Batch(models))
      requires forall r :: r in Batch(models) ==> r in arr.items
      modifies (set r | r in Batch(models)), ids
      ensures fresh(c) && c.Valid() && c.chained
      ensures c.arr.items == old(Batch(models)) && c.idAttribute == idAttribute
      ensures Valid() && ids.used == old(ids.used)
      ensures forall r :: r in arr.items ==> r.fields == old(r.fields)
    {
      c := Rebuild(models, ids);
      Kept();
      ghost var st := Abs();
      assert c != this && Valid();
      c.Chain();
      assert Abs() == st;
    }

    /** `new Collection(models, {idAttribute})` over distinct stored records. */
    method Rebuild(models: Models, ids: GuidSource) returns (c: Collection)
      requires Valid() && Distinct(Batch(models))
      requires forall r :: r in Batch(models) ==> r in arr.items
      modifies (set r | r in Batch(models)), ids
      ensures fresh(c) && c.Valid()
      ensures c.arr.items == old(Batch(models)) && c.idAttribute == idAttribute
      ensures ids.used == old(ids.used)
      ensures forall r :: r in old(Batch(models)) ==> r.fields == old(r.fields)
    {
      ghost var batch := Batch(models);
      ghost var snap := Snapshot(batch);
      ghost var used := ids.used;
      StoreFindings.WrapStored(Abs(), snap, idAttribute, batch, ids.draws, used);
      ghost var W := Wrap(snap, idAttribute, batch, ids.draws, used);
      c := new Collection(models, Options(NoComparator, idAttribute), ids);
      assert W == StoreSpec.Add(Reset(snap), c.idAttribute, c.comparator, batch, false, ids.draws, used);
      assert c.Agrees(W.0, batch);
      forall r | r in batch ensures r.fields == old(r.fields) {
        assert r.fields == FieldsIn(snap, r);
      }
    }

    /** `where`'s loop: the records whose test passes, in array order; with `returnFirst`
        the loop stops at the first of them. */
    method Scan(e: Expr, returnFirst: bool) returns (results: seq<Record>, first: Option<Record>)
      requires Distinct(arr.items)
      ensures returnFirst ==> results == [] && first == First(Abs(), arr.items, e)
      ensures !returnFirst ==> first == None && results == Filter(Abs(), arr.items, e, true)
      ensures Distinct(results) && forall x :: x in results ==> x in arr.items
      ensures first.Some? ==> first.value in arr.items
    {
      var items := arr.items;
      ghost var st := Abs();
      results := [];
      var i := 0;
      while i < |items|
        invariant 0 <= i <= |items|
        invariant results == Filter(st, items[..i], e, true)
        invariant returnFirst ==> results == []
      {
        var r := items[i];
        assert items[..i + 1][..i] == items[..i] && items[..i + 1][i] == r;
        if Test(e, r.fields) {
          if returnFirst {
            StoreWhere.NoneBefore(st, items, e, i);
            StoreWhere.FirstAt(st, items, e, i);
            return [], Some(r);
          }
          results := results + [r];
        }
        i := i + 1;
      }
      assert items[..i] == items;
      StoreWhere.FilterStored(st, items, e);
      if returnFirst {
        return [], None;
      }
      first := None;
    }

    /** `where(expr, value, deepCompare, returnFirst)`: the records that pass the test, in
        array order, or with `returnFirst` the first of them, which is returned as it is;
        every other result goes through `_result`, re-added under this store's own id
        attribute as `Result` does. */
    method Where(e: Expr, returnFirst: bool, ids: GuidSource) returns (s: Selection)
      requires Valid()
      modifies arr.items, ids
      ensures Valid() && ids.used == old(ids.used) && Abs() == old(Abs())
      ensures forall r :: r in arr.items ==> r.fields == old(r.fields)
      ensures s.Found? ==> s.record in arr.items
      ensures returnFirst ==>
        var f := First(old(Abs()), arr.items, e);
        && (f.Some? ==> s == Found(f.value))
        && (f.None? && !chained ==> s == Nothing)
        && (f.None? && chained ==>
              s.Chained? && fresh(s.coll) && s.coll.chained && s.coll.Valid() && s.coll.arr.items == [])
      ensures !returnFirst ==>
        var m := Filter(old(Abs()), arr.items, e, true);
        && (!chained ==> s.Records? && fresh(s.list) && s.list.items == m)
        && (chained ==>
              s.Chained? && fresh(s.coll) && s.coll.chained && s.coll.Valid() && s.coll.arr.items == m)
    {
      var results, first := Scan(e, returnFirst);
      if first.Some? {
        return Found(first.value);
      }
      if returnFirst {
        s := Result(Falsy, ids);
      } else {
        s := ResultList(results, ids);
      }
      Kept();
    }

    /** `_result(results)` for the list of matches `where` collects in a new array. */
    method ResultList(results: seq<Record>, ids: GuidSource) returns (s: Selection)
      requires Valid() && Distinct(results)
      requires forall r :: r in results ==> r in arr.items
      modifies (set r | r in results), ids
      ensures !chained ==> s.Records? && fresh(s.list) && s.list.items == results
      ensures chained ==>
        s.Chained? && fresh(s.coll) && s.coll.chained && s.coll.Valid() && s.coll.arr.items == results
      ensures Valid() && ids.used == old(ids.used)
      ensures forall r :: r in arr.items ==> r.fields == old(r.fields)
    {
      var list := new JsArray(results);
      assert Batch(Many(list)) == results;
      s := Result(Many(list), ids);
    }

    /** `find(expr, value, deepCompare)`: `where` with `returnFirst`, through `_result`
        as `Result` corrects it. On a miss in chain mode the model hands back `where`'s empty chained collection. */
    method Find(e: Expr, ids: GuidSource) returns (s: Selection)
      requires Valid()
      modifies arr.items, ids
      ensures Valid() && ids.used == old(ids.used)
      ensures forall r :: r in arr.items ==> r.fields == old(r.fields)
      ensures var f := First(old(Abs()), arr.items, e);
        && (!chained ==> s == if f.Some? then Found(f.value) else Nothing)
        && (chained && f.Some? ==>
              s.Chained? && fresh(s.coll) && s.coll.chained && s.coll.Valid() && s.coll.arr.items == [f.value])
    {
      var v := Where(e, true, ids);
      if v.Found? {
        s := Result(One(v.record), ids);
      } else {
        s := v;
      }
    }

    /** `removeWhere(expr, value, deepCompare)`: `remove(where(expr))`. In chain mode,
        with `_result` as `Result` corrects it, `where` hands back a collection object,
        which `remove` takes for one entry the array does not hold, so nothing is
        removed. */
    method RemoveWhere(e: Expr, ids: GuidSource)
      requires Valid()
      modifies this, arr, arr.items, ids
      ensures Valid() && arr == old(arr) && chained == old(chained) && ids.used == old(ids.used)
      ensures forall r :: r in old(arr.items) ==> r.fields == old(r.fields)
      ensures chained ==> arr.items == old(arr.items) && hash == old(hash)
      ensures !chained ==>
        && arr.items == Filter(old(Abs()), old(arr.items), e, false)
        && hash == RemoveList(old(Abs()), idAttribute, Filter(old(Abs()), old(arr.items), e, true)).hash
    {
      ghost var st0 := Abs();
      var objects := Where(e, false, ids);
      assert Abs() == st0;
      if objects.Records? {
        RemoveMatches(e, objects.list);
      }
    }

    /** The `remove(objects)` that ends `removeWhere`, for the matches `objects`. */
    method RemoveMatches(ghost e: Expr, list: JsArray)
      requires Valid() && list != arr && list.items == Filter(Abs(), arr.items, e, true)
      modifies this, arr
      ensures Valid() && arr == old(arr) && chained == old(chained)
      ensures arr.items == Filter(old(Abs()), old(arr.items), e, false)
      ensures hash == RemoveList(old(Abs()), idAttribute, list.items).hash
    {
      ghost var st0 := Abs();
      ghost var m := list.items;
      assert Batch(Many(list)) == m && m[0..] == m;
      ghost var S := RemoveList(st0, idAttribute, m);
      assert RemoveFrom(st0, idAttribute, false, m, 0) == S;
      Remove(Many(list));
      assert arr.items == S.items && hash == S.hash;
      StoreRemove.RemoveWhereKeepsRest(st0, idAttribute, e);
    }

    /** `pluck(key)`: the field `key` of every record, in order, through `_result`. In
        chain mode `new Collection(values)` reads `id` on the first value, which strict
        mode refuses for `null` and `undefined`. Any other primitive has no `id`, so
        `_guid()` is drawn before strict mode refuses to set it. */
    method Pluck(key: string, ids: GuidSource) returns (p: Plucked)
      requires Valid()
      modifies ids
      ensures !chained || arr.items == [] ==> ids.used == old(ids.used)
      ensures chained && arr.items != [] ==>
        var v0 := Field(arr.items[0].fields, key);
        ids.used == old(ids.used) + (if v0.Null? || v0.Undefined? then 0 else 1)
      ensures !chained ==> p == Values(PluckOf(Abs(), arr.items, key))
      ensures chained && arr.items == [] ==>
        p.ChainedValues? && fresh(p.coll) && p.coll.chained && p.coll.Valid() && p.coll.arr.items == []
      ensures chained && arr.items != [] ==> p == TypeError
    {
      var vals := PluckValues(key);
      if !chained {
        p := Values(vals);
      } else if vals == [] {
        var list := new JsArray([]);
        var c := new Collection(Many(list), Options(NoComparator, idAttribute), ids);
        c.Chain();
        p := ChainedValues(c);
      } else {
        ThrowOnFirst(vals[0], ids);
        p := TypeError;
      }
    }

    /** `this.map(function (value) { return value[key]; })`: the loop over the array. */
    method PluckValues(key: string) returns (vals: seq<Value>)
      ensures vals == PluckOf(Abs(), arr.items, key)
    {
      vals := [];
      var i := 0;
      while i < |arr.items|
        invariant 0 <= i <= |arr.items|
        invariant vals == PluckOf(Abs(), arr.items[..i], key)
      {
        assert arr.items[..i + 1][..i] == arr.items[..i];
        vals := vals + [Field(arr.items[i].fields, key)];
        i := i + 1;
      }
      assert arr.items[..i] == arr.items;
    }

    /** Lines 57-58 of the wrapping `add` on a primitive first value: `null` and
        `undefined` throw on the read; any other primitive has no `id`, so `_guid()`
        runs before strict mode refuses the write. */
    static method ThrowOnFirst(v0: Value, ids: GuidSource)
      modifies ids
      ensures ids.used == old(ids.used) + (if v0.Null? || v0.Undefined? then 0 else 1)
    {
      if !(v0.Null? || v0.Undefined?) {
        var _ := ids.Next();
      }
    }

    /** `last()`: `array[length - 1]`; with the counter in step, the final record. */
    function Last(): (r: Option<Record>)
      reads this, arr
      ensures length == |arr.items| ==> (r.Some? <==> arr.items != [])
      ensures length == |arr.items| && r.Some? ==> r.value == arr.items[|arr.items| - 1]
    {
      if 0 <= length - 1 < |arr.items| then Some(arr.items[length - 1]) else None
    }

    /** `at(index)`: `array[index]`, `undefined` outside the array. */
    function At(index: int): (r: Option<Record>)
      reads this, arr
      ensures r.Some? <==> 0 <= index < |arr.items|
      ensures r.Some? ==> [r.value] == SliceOf(arr.items, Some(index), Some(index + 1))
    {
      if 0 <= index < |arr.items| then
        StoreAccess.AtIsSlice(arr.items, index);
        Some(arr.items[index])
      else None
    }

    /** `size()`: `array.length`. */
    function Size(): nat
      reads this, arr
    {
      |arr.items|
    }

    /** `size()`, `length` and the number of ids in `hash` agree. */
    lemma SizeAgrees()
      requires Valid()
      ensures Size() == length && Size() == |hash|
    {
      StoreInvariant.IndexSize(Abs(), idAttribute);
    }

    /** `all()`: the array itself, not a copy. */
    function All(): JsArray
      reads this
    {
      arr
    }

    /** `slice(begin, end)`: the run of consecutive records of the array from where
        `begin` points up to where `end` points, empty when `end` is not past `begin`. */
    function Slice(begin: Option<int>, end: Option<int>): (r: seq<Record>)
      reads this, arr
      ensures var b := SliceBound(begin, 0, |arr.items|);
        var e := SliceBound(end, |arr.items|, |arr.items|);
        |r| == (if b < e then e - b else 0) && b + |r| <= |arr.items| && r == arr.items[b..b + |r|]
    {
      StoreAccess.SliceContiguous(arr.items, begin, end);
      SliceOf(arr.items, begin, end)
    }
  }
}
