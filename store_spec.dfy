/** The collection's state as a value, and each of its operations as a function of
    that value: the abstract specification that the `Collection` class is proved to
    follow and that the properties of the store are proved about.

    A record is a handle `H` (an object reference in the class); `heap` gives the
    current fields of the records the state mentions, so that a merge into a record is
    seen wherever that record is referenced. */
module StoreSpec {
  import opened Values
  import opened Ordering
  import Guid

  /** `options.comparator`: unset, a field name, or a function (which `sort` never calls). */
  datatype Comparator = NoComparator | FieldName(name: string) | CompareFn

  /** `this.comparator` in a boolean context. */
  predicate ComparatorTruthy(c: Comparator) {
    match c
    case NoComparator => false
    case FieldName(s) => s != ""
    case CompareFn => true
  }

  /** `array` (the records in order), `hash` (property name to record) and the fields of
      the records involved. The counter `length` is kept by the class. */
  datatype Store<H(==)> = Store(items: seq<H>, hash: map<string, H>, heap: map<H, Fields>)

  function FieldsIn<H(==)>(heap: map<H, Fields>, h: H): Fields {
    if h in heap then heap[h] else map[]
  }

  function FieldsOf<H(==)>(st: Store<H>, h: H): Fields {
    FieldsIn(st.heap, h)
  }

  /** `record[idAttribute]`. */
  function IdOf<H(==)>(st: Store<H>, idAttr: string, h: H): Value {
    Field(FieldsOf(st, h), idAttr)
  }

  /** The property name a record is filed under in `hash`. */
  function KeyOf<H(==)>(st: Store<H>, idAttr: string, h: H): string {
    Key(IdOf(st, idAttr, h))
  }

  ghost predicate Distinct<H>(s: seq<H>) {
    forall i, j :: 0 <= i < j < |s| ==> s[i] != s[j]
  }

  /** The store invariant: every record in `array` carries a truthy id and is the
      record `hash` files under that id; every entry of `hash` is a record of `array`
      filed under its own id; no record occurs twice. */
  ghost predicate Indexed<H>(st: Store<H>, idAttr: string) {
    && Distinct(st.items)
    && (forall h :: h in st.items ==>
          Truthy(IdOf(st, idAttr, h)) && KeyOf(st, idAttr, h) in st.hash
          && st.hash[KeyOf(st, idAttr, h)] == h)
    && (forall k :: k in st.hash ==> st.hash[k] in st.items && KeyOf(st, idAttr, st.hash[k]) == k)
  }

  /** `_reset()`: no records, over the fields `heap` gives. */
  function Reset<H(==)>(heap: map<H, Fields>): (st: Store<H>)
    ensures st.items == [] && st.hash == map[]
  {
    Store([], map[], heap)
  }

  lemma ResetIndexed<H>(heap: map<H, Fields>, idAttr: string)
    ensures Indexed(Reset(heap), idAttr)
  {
  }

  /** Invariance of the store invariant under a change of fields outside the store. */
  lemma IndexedFrame<H>(st: Store<H>, heap: map<H, Fields>, idAttr: string)
    requires Indexed(st, idAttr)
    requires forall h :: h in st.items ==> FieldsIn(heap, h) == FieldsOf(st, h)
    ensures Indexed(st.(heap := heap), idAttr)
  {
    var st' := st.(heap := heap);
    forall h | h in st.items ensures KeyOf(st', idAttr, h) == KeyOf(st, idAttr, h) { }
  }

  // ---------------------------------------------------------------------------
  // get

  /** What `get` is given: a record, or a raw id value. */
  datatype GetArg<H> = ByRecord(h: H) | ById(v: Value)

  /** What a record with no truthy id becomes as a property name. */
  const ObjectKey := "[object Object]"

  /** What `get` is given, with a record standing for its current fields. */
  datatype Target = RecordWith(f: Fields) | RawId(v: Value)

  /** The property name `get` reads, `obj[idAttribute] || obj`, or `None` when the
      argument is `null` or `undefined`. A raw id is looked up under its own name,
      unless it is a string that has a truthy property of that name (its `length`,
      or a character at an index). */
  function GetKey(idAttr: string, t: Target): (k: Option<string>)
    ensures t.RawId? ==> (k.None? <==> t.v.Null? || t.v.Undefined?)
    ensures t.RawId? && k.Some? && !Truthy(PrimitiveProperty(t.v, idAttr)) ==> k.value == Key(t.v)
    ensures t.RawId? && k.Some? && Truthy(PrimitiveProperty(t.v, idAttr)) ==>
              k.value == Key(PrimitiveProperty(t.v, idAttr))
    ensures t.RawId? && !t.v.Str? && k.Some? ==> k.value == Key(t.v)
    ensures t.RecordWith? && Truthy(Field(t.f, idAttr)) ==> k == Some(Key(Field(t.f, idAttr)))
    ensures t.RecordWith? && !Truthy(Field(t.f, idAttr)) ==> k == Some(ObjectKey)
  {
    match t
    case RawId(v) =>
      if v.Null? || v.Undefined? then None
      else
        var p := PrimitiveProperty(v, idAttr);
        Some(if Truthy(p) then Key(p) else Key(v))
    case RecordWith(f) => Some(if Truthy(Field(f, idAttr)) then Key(Field(f, idAttr)) else ObjectKey)
  }

  function TargetOf<H(==)>(st: Store<H>, arg: GetArg<H>): Target {
    match arg
    case ByRecord(h) => RecordWith(FieldsOf(st, h))
    case ById(v) => RawId(v)
  }

  /** `hash[k]`, or `undefined` when no record is filed under `k`. */
  function HashAt<H(==)>(hash: map<string, H>, k: Option<string>): Option<H> {
    if k.Some? && k.value in hash then Some(hash[k.value]) else None
  }

  /** `get(obj)`. */
  function Get<H(==)>(st: Store<H>, idAttr: string, arg: GetArg<H>): Option<H> {
    HashAt(st.hash, GetKey(idAttr, TargetOf(st, arg)))
  }

  // ---------------------------------------------------------------------------
  // add

  /** `if (!model[idAttribute]) model[idAttribute] = _guid()`. */
  function AssignId<H(==)>(st: Store<H>, idAttr: string, h: H, g: string): Store<H> {
    if Truthy(IdOf(st, idAttr, h)) then st
    else st.(heap := st.heap[h := FieldsOf(st, h)[idAttr := Str(g)]])
  }

  /** Merge into the record `get` finds, or append and file under the id. */
  function Place<H(==)>(st: Store<H>, idAttr: string, h: H): Store<H> {
    match Get(st, idAttr, ByRecord(h))
    case Some(e) => st.(heap := st.heap[e := Extend(FieldsOf(st, e), FieldsOf(st, h))])
    case None => st.(items := st.items + [h], hash := st.hash[KeyOf(st, idAttr, h) := h])
  }

  /** One turn of `add`'s loop; `used` counts the ids drawn so far from `draws`. */
  function AddStep<H(==)>(st: Store<H>, idAttr: string, h: H, draws: nat -> Guid.Draw, used: nat): (Store<H>, nat) {
    var needsId := !Truthy(IdOf(st, idAttr, h));
    (Place(AssignId(st, idAttr, h, Guid.Format(draws(used))), idAttr, h), if needsId then used + 1 else used)
  }

  /** `add`'s loop over the whole batch, in order. */
  function AddLoop<H(==)>(st: Store<H>, idAttr: string, batch: seq<H>, draws: nat -> Guid.Draw, used: nat): (Store<H>, nat)
    decreases |batch|
  {
    if batch == [] then (st, used)
    else
      var prev := AddLoop(st, idAttr, batch[..|batch| - 1], draws, used);
      AddStep(prev.0, idAttr, batch[|batch| - 1], draws, prev.1)
  }

  /** The order key `orderBy` reads off a record. The empty expression makes `orderBy`
      compare the records themselves, and plain objects all compare equal: every record
      then has the same key. */
  function SortKey<H(==)>(heap: map<H, Fields>, name: string): H -> Value {
    if name == "" then h => Undefined else h => Field(FieldsIn(heap, h), name)
  }

  /** `sort()`: reorders only when the comparator is a field name. */
  function SortStore<H(==)>(st: Store<H>, c: Comparator): (r: Store<H>)
    ensures r.hash == st.hash && r.heap == st.heap
    ensures multiset(r.items) == multiset(st.items)
    ensures c.FieldName? ==> SortedBy(r.items, SortKey(st.heap, c.name))
    ensures !c.FieldName? ==> r.items == st.items
  {
    if c.FieldName? then st.(items := SortBy(st.items, SortKey(st.heap, c.name))) else st
  }

  /** `sort()` with the empty string for comparator keeps the order: all records tie. */
  lemma EmptyComparatorKeepsOrder<H>(st: Store<H>)
    ensures SortStore(st, FieldName("")) == st
  {
    ValueLeTotal(Undefined, Undefined);
    SortByKeepsTies(st.items, SortKey(st.heap, ""));
  }

  /** `add(models, options)`, with the batch already made a list; `noSort` stands for
      `options.sort === false`. */
  function Add<H(==)>(st: Store<H>, idAttr: string, c: Comparator, batch: seq<H>, noSort: bool,
                      draws: nat -> Guid.Draw, used: nat): (Store<H>, nat)
  {
    var r := AddLoop(st, idAttr, batch, draws, used);
    (if ComparatorTruthy(c) && !noSort then SortStore(r.0, c) else r.0, r.1)
  }

  // ---------------------------------------------------------------------------
  // remove

  /** `Array.prototype.indexOf` by reference. */
  function IndexOf<H(==)>(s: seq<H>, x: H): (i: int)
    ensures -1 <= i < |s|
    ensures i == -1 <==> x !in s
    ensures 0 <= i ==> s[i] == x && x !in s[..i]
    decreases |s|
  {
    if s == [] then -1
    else if s[0] == x then 0
    else
      var j := IndexOf(s[1..], x);
      assert s[1..] == s[1..|s|];
      if j == -1 then -1
      else
        assert s[..j + 1] == [s[0]] + s[1..][..j];
        j + 1
  }

  /** `array.splice(i, 1)`. */
  function RemoveAt<H>(s: seq<H>, i: nat): (r: seq<H>)
    requires i < |s|
    ensures |r| == |s| - 1
  {
    s[..i] + s[i + 1..]
  }

  /** `delete hash[model[idAttribute]]` and splice the record out of `array`. */
  function RemoveOne<H(==)>(st: Store<H>, idAttr: string, h: H): Store<H>
    requires h in st.items
  {
    st.(items := RemoveAt(st.items, IndexOf(st.items, h)), hash := st.hash - {KeyOf(st, idAttr, h)})
  }

  /** `remove(models)` for a list other than the store's own array: the entries in
      turn, until the first that is not in `array`, which ends the call. */
  function RemoveList<H(==)>(st: Store<H>, idAttr: string, batch: seq<H>): Store<H>
    decreases |batch|
  {
    if batch == [] then st
    else if batch[0] !in st.items then st
    else RemoveList(RemoveOne(st, idAttr, batch[0]), idAttr, batch[1..])
  }

  /** `remove(this.array)`, as `removeAll` makes it, from turn `i` of `l`: each turn
      reads the live array, which the previous turns have spliced; a read past its end
      is `undefined` and is skipped. */
  function RemoveOwn<H(==)>(st: Store<H>, idAttr: string, i: nat, l: nat): Store<H>
    decreases l - i
  {
    if i >= l then st
    else if i >= |st.items| then RemoveOwn(st, idAttr, i + 1, l)
    else RemoveOwn(RemoveOne(st, idAttr, st.items[i]), idAttr, i + 1, l)
  }

  /** The turns of `remove(models)` from turn `i` on, where `own` says whether the list
      is the store's own array and `batch` is the list as it was when the call began. */
  function RemoveFrom<H(==)>(st: Store<H>, idAttr: string, own: bool, batch: seq<H>, i: nat): Store<H> {
    if own then RemoveOwn(st, idAttr, i, |batch|)
    else RemoveList(st, idAttr, if i <= |batch| then batch[i..] else [])
  }

  // ---------------------------------------------------------------------------
  // where

  /** The records of `s`, in order, for which the predicate built from `e` is `keep`. */
  function Filter<H(==)>(st: Store<H>, s: seq<H>, e: Expr, keep: bool): seq<H>
    decreases |s|
  {
    if s == [] then []
    else
      var rest := Filter(st, s[..|s| - 1], e, keep);
      if Test(e, FieldsOf(st, s[|s| - 1])) == keep then rest + [s[|s| - 1]] else rest
  }

  /** The first matching record, or `undefined`. */
  function First<H(==)>(st: Store<H>, s: seq<H>, e: Expr): Option<H> {
    var m := Filter(st, s, e, true);
    if m == [] then None else Some(m[0])
  }

  /** The records of `s` that are not in `d`, in their order. */
  function Without<H(==)>(s: seq<H>, d: set<H>): seq<H>
    decreases |s|
  {
    if s == [] then []
    else
      var rest := Without(s[..|s| - 1], d);
      if s[|s| - 1] in d then rest else rest + [s[|s| - 1]]
  }

  /** The records at odd positions, in order: `s[1], s[3], ...`. */
  function OddPositions<H>(s: seq<H>): (r: seq<H>)
    ensures |r| == |s| / 2
    ensures forall j :: 0 <= j < |r| ==> r[j] == s[2 * j + 1]
  {
    seq(|s| / 2, j requires 0 <= j < |s| / 2 => s[2 * j + 1])
  }

  // ---------------------------------------------------------------------------
  // accessors

  /** A `slice` bound: `undefined` stands for `dflt`, a negative bound counts back from
      the end, and either is then clamped to the list. */
  function SliceBound(k: Option<int>, dflt: nat, n: nat): (j: nat)
    requires dflt <= n
    ensures j <= n
    ensures k.None? ==> j == dflt
    ensures k.Some? && 0 <= k.value <= n ==> j == k.value
    ensures k.Some? && k.value > n ==> j == n
    ensures k.Some? && k.value < 0 && n + k.value >= 0 ==> j == n + k.value
    ensures k.Some? && n + k.value < 0 ==> j == 0
  {
    match k
    case None => dflt
    case Some(v) => if v < 0 then (if n + v < 0 then 0 else n + v) else (if v > n then n else v)
  }

  /** `array.slice(begin, end)`. */
  function SliceOf<H>(s: seq<H>, begin: Option<int>, end: Option<int>): seq<H> {
    var b := SliceBound(begin, 0, |s|);
    var e := SliceBound(end, |s|, |s|);
    if b < e then s[b..e] else []
  }

  /** `pluck(key)`: the field `key` of each record of `s`, in order. */
  function PluckOf<H(==)>(st: Store<H>, s: seq<H>, key: string): (r: seq<Value>)
    ensures |r| == |s|
    ensures forall i :: 0 <= i < |s| ==> r[i] == Field(FieldsOf(st, s[i]), key)
    decreases |s|
  {
    if s == [] then [] else PluckOf(st, s[..|s| - 1], key) + [Field(FieldsOf(st, s[|s| - 1]), key)]
  }

  // ---------------------------------------------------------------------------
  // update

  /** `update(obj)`: merge into the record `get` finds, otherwise `add(obj)`. */
  function UpdateAsWritten<H(==)>(st: Store<H>, idAttr: string, c: Comparator, h: H,
                                  draws: nat -> Guid.Draw, used: nat): (Store<H>, nat)
  {
    match Get(st, idAttr, ByRecord(h))
    case Some(e) => (st.(heap := st.heap[e := Extend(FieldsOf(st, e), FieldsOf(st, h))]), used)
    case None => Add(st, idAttr, c, [h], false, draws, used)
  }

  /** `update(obj)` merging only into the record filed under `obj`'s own truthy id. */
  function Update<H(==)>(st: Store<H>, idAttr: string, c: Comparator, h: H,
                         draws: nat -> Guid.Draw, used: nat): (Store<H>, nat)
  {
    if Truthy(IdOf(st, idAttr, h)) && KeyOf(st, idAttr, h) in st.hash then
      var e := st.hash[KeyOf(st, idAttr, h)];
      (st.(heap := st.heap[e := Extend(FieldsOf(st, e), FieldsOf(st, h))]), used)
    else Add(st, idAttr, c, [h], false, draws, used)
  }

  // ---------------------------------------------------------------------------
  // _result in chain mode

  /** `new Collection(models)` as `_result` builds it: no options, so the records are
      added under the default id attribute `id` whatever the store's own is. */
  function WrapAsWritten<H(==)>(heap: map<H, Fields>, models: seq<H>, draws: nat -> Guid.Draw, used: nat): (Store<H>, nat) {
    Add(Reset(heap), "id", NoComparator, models, false, draws, used)
  }

  /** The chained result built under the store's own id attribute. */
  function Wrap<H(==)>(heap: map<H, Fields>, idAttr: string, models: seq<H>, draws: nat -> Guid.Draw, used: nat): (Store<H>, nat) {
    Add(Reset(heap), idAttr, NoComparator, models, false, draws, used)
  }
}
