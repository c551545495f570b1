/** Two places where the code does not do what it evidently means to: `update` on a
    record with a falsy id (lines 140-147, through `get` at line 88), and the chained
    results `_result` builds (line 21). For each, the behaviour as written is exhibited
    on a concrete store, and the corrected definition is proved to keep the store
    invariant. */
module StoreFindings {
  import opened Values
  import opened StoreSpec
  import opened StoreInvariant
  import opened StoreAdd
  import opened StoreWhere
  import Guid

  // ---------------------------------------------------------------------------
  // update

  /** The corrected `update` keeps the store invariant. */
  lemma UpdateIndexed<H>(st: Store<H>, idAttr: string, c: Comparator, h: H, draws: nat -> Guid.Draw, used: nat)
    requires Indexed(st, idAttr)
    ensures Indexed(Update(st, idAttr, c, h, draws, used).0, idAttr)
  {
    if Truthy(IdOf(st, idAttr, h)) && KeyOf(st, idAttr, h) in st.hash {
      var e := st.hash[KeyOf(st, idAttr, h)];
      MergeKeepsKey(st, idAttr, h, e);
      IndexedRekey(st, st.heap[e := Extend(FieldsOf(st, e), FieldsOf(st, h))], idAttr);
    } else {
      AddIndexed(st, idAttr, c, [h], false, draws, used);
    }
  }

  /** For a record with a truthy id the corrected `update` is the one written. */
  lemma UpdateAgreesOnIdentified<H>(st: Store<H>, idAttr: string, c: Comparator, h: H, draws: nat -> Guid.Draw, used: nat)
    requires Truthy(IdOf(st, idAttr, h))
    ensures Update(st, idAttr, c, h, draws, used) == UpdateAsWritten(st, idAttr, c, h, draws, used)
  {
    assert Get(st, idAttr, ByRecord(h)) == HashAt(st.hash, Some(KeyOf(st, idAttr, h)));
  }

  /** Updating with a stored record changes nothing. */
  lemma UpdateStoredIsNoop<H>(st: Store<H>, idAttr: string, c: Comparator, h: H, draws: nat -> Guid.Draw, used: nat)
    requires Indexed(st, idAttr) && h in st.items
    ensures Update(st, idAttr, c, h, draws, used) == (st, used)
  {
    assert st.hash[KeyOf(st, idAttr, h)] == h;
    assert h in st.heap;
    assert Extend(FieldsOf(st, h), FieldsOf(st, h)) == st.heap[h];
    assert st.heap[h := st.heap[h]] == st.heap;
  }

  /** A store holding one record whose id is the string "[object Object]", and a
      candidate record 2 whose id is `0`. */
  function ObjectKeyStore(): Store<int> {
    Store([1], map[ObjectKey := 1],
          map[1 := map["id" := Str(ObjectKey)], 2 := map["id" := Num(0), "name" := Str("x")]])
  }

  lemma ObjectKeyStoreIndexed()
    ensures Indexed(ObjectKeyStore(), "id")
  {
    var st := ObjectKeyStore();
    assert KeyOf(st, "id", 1) == ObjectKey;
  }

  /** As written, `update` of record 2 finds record 1 under "[object Object]" and
      overwrites its id with `0`, which leaves record 1 filed under an id it no longer
      has. */
  lemma UpdateAsWrittenMisfiles(draws: nat -> Guid.Draw, used: nat)
    ensures !Indexed(UpdateAsWritten(ObjectKeyStore(), "id", NoComparator, 2, draws, used).0, "id")
  {
    var st := ObjectKeyStore();
    assert Get(st, "id", ByRecord(2)) == Some(1);
    var broken := UpdateAsWritten(st, "id", NoComparator, 2, draws, used).0;
    assert IdOf(broken, "id", 1) == Num(0);
    assert 1 in broken.items;
  }

  /** The corrected `update` of record 2 appends it under a generated id. */
  lemma UpdateObjectKeyAppends(draws: nat -> Guid.Draw, used: nat)
    ensures Update(ObjectKeyStore(), "id", NoComparator, 2, draws, used).0.items == [1, 2]
  {
    var st := ObjectKeyStore();
    var g := Guid.Format(draws(used));
    assert |g| == 36;
    var st1 := AssignId(st, "id", 2, g);
    assert KeyOf(st1, "id", 2) == g && g !in st.hash;
    PlaceNew(st1, "id", 2);
    AddLoopSnoc(st, "id", [], 2, draws, used);
    assert [] + [2] == [2];
  }

  /** As written, `update` breaks the index of a store that was indexed; the corrected
      `update` keeps both records. */
  lemma UpdateAsWrittenBreaksIndex(draws: nat -> Guid.Draw, used: nat)
    ensures Indexed(ObjectKeyStore(), "id")
    ensures !Indexed(UpdateAsWritten(ObjectKeyStore(), "id", NoComparator, 2, draws, used).0, "id")
    ensures Update(ObjectKeyStore(), "id", NoComparator, 2, draws, used).0.items == [1, 2]
  {
    ObjectKeyStoreIndexed();
    UpdateAsWrittenMisfiles(draws, used);
    UpdateObjectKeyAppends(draws, used);
  }

  // ---------------------------------------------------------------------------
  // _result in chain mode

  /** The corrected `_result`: distinct stored records, re-added to an empty store over
      fields that agree with the store's, are all appended in order under the store's own
      id attribute; no record is touched and no id is drawn. */
  lemma WrapStored<H>(st: Store<H>, heap: map<H, Fields>, idAttr: string, m: seq<H>, draws: nat -> Guid.Draw, used: nat)
    requires Indexed(st, idAttr) && Distinct(m)
    requires forall x :: x in m ==> x in st.items && FieldsIn(heap, x) == FieldsOf(st, x)
    ensures var w := Wrap(heap, idAttr, m, draws, used);
      w.0.items == m && w.0.heap == heap && w.1 == used && Indexed(w.0, idAttr)
  {
    var empty := Reset(heap);
    ResetIndexed(heap, idAttr);
    forall x | x in m ensures Truthy(IdOf(empty, idAttr, x)) && KeyOf(empty, idAttr, x) !in empty.hash {
      assert IdOf(empty, idAttr, x) == IdOf(st, idAttr, x);
    }
    forall i, j | 0 <= i < j < |m| ensures KeyOf(empty, idAttr, m[i]) != KeyOf(empty, idAttr, m[j]) {
      assert m[i] in m && m[j] in m;
      assert st.hash[KeyOf(st, idAttr, m[i])] == m[i];
      assert st.hash[KeyOf(st, idAttr, m[j])] == m[j];
    }
    AddNewAppends(empty, idAttr, m, draws, used);
    AddIndexed(empty, idAttr, NoComparator, m, false, draws, used);
  }

  /** The corrected chained result of `where`: the matches, in order, over the same
      fields, filed under the store's own id attribute. */
  lemma WrapSelection<H>(st: Store<H>, idAttr: string, e: Expr, draws: nat -> Guid.Draw, used: nat)
    requires Indexed(st, idAttr)
    ensures var m := Filter(st, st.items, e, true);
      var w := Wrap(st.heap, idAttr, m, draws, used);
      w.0.items == m && w.0.heap == st.heap && w.1 == used && Indexed(w.0, idAttr)
  {
    var m := Filter(st, st.items, e, true);
    FilterDistinct(st, st.items, e, true);
    forall x | x in m ensures x in st.items {
      FilterMembers(st, st.items, e, true, x);
    }
    WrapStored(st, st.heap, idAttr, m, draws, used);
  }

  /** A store indexed by `key` whose two records share the value 7 in a field `id`. */
  function SharedIdStore(): Store<int> {
    Store([1, 2], map["a" := 1, "b" := 2],
          map[1 := map["key" := Str("a"), "id" := Num(7)], 2 := map["key" := Str("b"), "id" := Num(7)]])
  }

  lemma SharedIdStoreIndexed()
    ensures Indexed(SharedIdStore(), "key")
  {
    var st := SharedIdStore();
    assert KeyOf(st, "key", 1) == "a" && KeyOf(st, "key", 2) == "b";
    assert Distinct(st.items);
  }

  /** `where({})` selects both records of that store. */
  lemma SharedIdStoreSelection()
    ensures var st := SharedIdStore();
      Filter(st, st.items, Pattern(map[]), true) == [1, 2]
  {
    var st := SharedIdStore();
    EmptyPatternMatchesAll(FieldsOf(st, 1));
    EmptyPatternMatchesAll(FieldsOf(st, 2));
    assert [1, 2][..1] == [1];
    assert [1][..0] == [];
    assert Filter(st, [1], Pattern(map[]), true) == [1];
  }

  /** As written, re-adding records 1 and 2 of that store under `id` merges the second
      into the first, so only record 1 is kept, and record 1's `key` becomes "b", which
      leaves the store it came from filed wrongly. */
  lemma WrapAsWrittenMerges(draws: nat -> Guid.Draw, used: nat)
    ensures var st := SharedIdStore();
      var w := WrapAsWritten(st.heap, [1, 2], draws, used).0;
      w.items == [1] && !Indexed(st.(heap := w.heap), "key")
  {
    var st := SharedIdStore();
    SharedIdMerge(draws, used);
    var w := AddLoop(Reset(st.heap), "id", [1, 2], draws, used).0;
    assert WrapAsWritten(st.heap, [1, 2], draws, used).0 == w;
    var broken := st.(heap := w.heap);
    assert KeyOf(broken, "key", 1) == "b";
    assert 1 in broken.items;
  }

  /** Adding records 1 and 2 of that store to an empty store under `id` keeps record 1
      only, with record 2's `key` copied onto it. */
  lemma SharedIdMerge(draws: nat -> Guid.Draw, used: nat)
    ensures var w := AddLoop(Reset(SharedIdStore().heap), "id", [1, 2], draws, used).0;
      w.items == [1] && Field(FieldsOf(w, 1), "key") == Str("b")
  {
    var st := SharedIdStore();
    BatchDuplicatesMerge(Reset(st.heap), "id", 1, 2, draws, used);
  }

  /** As written, chaining `where({})` on that store yields one record and corrupts the
      store it came from; the corrected result holds both records and changes no
      fields. */
  lemma WrapAsWrittenCorrupts(draws: nat -> Guid.Draw, used: nat)
    ensures var st := SharedIdStore();
      var m := Filter(st, st.items, Pattern(map[]), true);
      var w := WrapAsWritten(st.heap, m, draws, used).0;
      && Indexed(st, "key")
      && w.items == [1]
      && !Indexed(st.(heap := w.heap), "key")
      && Wrap(st.heap, "key", m, draws, used).0.items == [1, 2]
  {
    SharedIdStoreIndexed();
    SharedIdStoreSelection();
    WrapAsWrittenMerges(draws, used);
    WrapSelection(SharedIdStore(), "key", Pattern(map[]), draws, used);
  }
}
