/** The store invariant (`StoreSpec.Indexed`) holds after `_reset` and is kept by every
    operation that changes the store: `add` (id assignment, merge, append, sort) and
    `remove` (from a separate list or from the store's own array). Its consequences:
    `length`, the array and the index agree in size, and ids are unique. */
module StoreInvariant {
  import opened Values
  import opened Ordering
  import opened StoreSpec
  import Guid

  // ---------------------------------------------------------------------------
  // Sequences without repeats

  lemma {:induction false} DistinctCount<H>(s: seq<H>, x: H)
    requires Distinct(s)
    ensures multiset(s)[x] <= 1
    decreases |s|
  {
    if s != [] {
      var t := s[..|s| - 1];
      assert s == t + [s[|s| - 1]];
      assert Distinct(t);
      DistinctCount(t, x);
      if x == s[|s| - 1] {
        forall i | 0 <= i < |t| ensures t[i] != x {
          assert s[i] != s[|s| - 1];
        }
      }
    }
  }

  lemma RepeatCount<H>(s: seq<H>, i: nat, j: nat)
    requires i < j < |s| && s[i] == s[j]
    ensures multiset(s)[s[i]] >= 2
  {
    assert s == s[..i] + [s[i]] + s[i + 1..j] + [s[j]] + s[j + 1..];
  }

  /** A permutation of a sequence without repeats has none either. */
  lemma PermutationDistinct<H>(a: seq<H>, b: seq<H>)
    requires Distinct(a) && multiset(a) == multiset(b)
    ensures Distinct(b)
  {
    forall i, j | 0 <= i < j < |b| ensures b[i] != b[j] {
      if b[i] == b[j] {
        RepeatCount(b, i, j);
        DistinctCount(a, b[i]);
      }
    }
  }

  // ---------------------------------------------------------------------------
  // Invariance under changes of fields

  /** The invariant survives any change of fields that leaves every stored record's id
      truthy and its property name as it was. */
  lemma IndexedRekey<H>(st: Store<H>, heap: map<H, Fields>, idAttr: string)
    requires Indexed(st, idAttr)
    requires forall h :: h in st.items ==>
               var st' := st.(heap := heap);
               Truthy(IdOf(st', idAttr, h)) && KeyOf(st', idAttr, h) == KeyOf(st, idAttr, h)
    ensures Indexed(st.(heap := heap), idAttr)
  {
  }

  // ---------------------------------------------------------------------------
  // add

  /** A record without a truthy id is not in the store. */
  lemma UnidentifiedNotStored<H>(st: Store<H>, idAttr: string, h: H)
    requires Indexed(st, idAttr) && !Truthy(IdOf(st, idAttr, h))
    ensures h !in st.items
  {
  }

  lemma AssignIdIndexed<H>(st: Store<H>, idAttr: string, h: H, g: string)
    requires Indexed(st, idAttr) && g != ""
    ensures var st' := AssignId(st, idAttr, h, g);
      Indexed(st', idAttr) && Truthy(IdOf(st', idAttr, h))
      && st'.items == st.items && st'.hash == st.hash
  {
    if !Truthy(IdOf(st, idAttr, h)) {
      UnidentifiedNotStored(st, idAttr, h);
      var st' := AssignId(st, idAttr, h, g);
      forall x | x in st.items ensures FieldsOf(st', x) == FieldsOf(st, x) { }
      IndexedFrame(st, st'.heap, idAttr);
      assert IdOf(st', idAttr, h) == Str(g);
    }
  }

  /** Merging `h`'s fields into the record `e` filed under `h`'s id keeps `e` filed there.
      `e` takes `h`'s id, unless the id attribute is `$$hashKey`, which `e` keeps. */
  lemma MergeKeepsKey<H>(st: Store<H>, idAttr: string, h: H, e: H)
    requires Truthy(IdOf(st, idAttr, h)) && KeyOf(st, idAttr, e) == KeyOf(st, idAttr, h)
    ensures var st' := st.(heap := st.heap[e := Extend(FieldsOf(st, e), FieldsOf(st, h))]);
      && IdOf(st', idAttr, e) == (if idAttr == HashKey then IdOf(st, idAttr, e) else IdOf(st, idAttr, h))
      && KeyOf(st', idAttr, e) == KeyOf(st, idAttr, e)
  {
    assert idAttr in FieldsOf(st, h);
  }

  lemma PlaceIndexed<H>(st: Store<H>, idAttr: string, h: H)
    requires Indexed(st, idAttr) && Truthy(IdOf(st, idAttr, h))
    ensures Indexed(Place(st, idAttr, h), idAttr)
  {
    var k := KeyOf(st, idAttr, h);
    assert Get(st, idAttr, ByRecord(h)) == HashAt(st.hash, Some(k));
    if k in st.hash {
      var e := st.hash[k];
      var heap' := st.heap[e := Extend(FieldsOf(st, e), FieldsOf(st, h))];
      MergeKeepsKey(st, idAttr, h, e);
      IndexedRekey(st, heap', idAttr);
    } else {
      assert h !in st.items;
      var st' := Place(st, idAttr, h);
      assert st'.items == st.items + [h];
      forall x | x in st'.items
        ensures KeyOf(st', idAttr, x) in st'.hash && st'.hash[KeyOf(st', idAttr, x)] == x
      {
        if x != h {
          assert KeyOf(st, idAttr, x) in st.hash;
        }
      }
    }
  }

  lemma AddStepIndexed<H>(st: Store<H>, idAttr: string, h: H, draws: nat -> Guid.Draw, used: nat)
    requires Indexed(st, idAttr)
    ensures Indexed(AddStep(st, idAttr, h, draws, used).0, idAttr)
  {
    var g := Guid.Format(draws(used));
    AssignIdIndexed(st, idAttr, h, g);
    PlaceIndexed(AssignId(st, idAttr, h, g), idAttr, h);
  }

  lemma {:induction false} AddLoopIndexed<H>(st: Store<H>, idAttr: string, batch: seq<H>, draws: nat -> Guid.Draw, used: nat)
    requires Indexed(st, idAttr)
    ensures Indexed(AddLoop(st, idAttr, batch, draws, used).0, idAttr)
    decreases |batch|
  {
    if batch != [] {
      var prev := AddLoop(st, idAttr, batch[..|batch| - 1], draws, used);
      AddLoopIndexed(st, idAttr, batch[..|batch| - 1], draws, used);
      AddStepIndexed(prev.0, idAttr, batch[|batch| - 1], draws, prev.1);
    }
  }

  /** `sort` permutes `array`: the records and the index are those it had. */
  lemma SortIndexed<H>(st: Store<H>, c: Comparator, idAttr: string)
    requires Indexed(st, idAttr)
    ensures var st' := SortStore(st, c);
      Indexed(st', idAttr) && st'.hash == st.hash && st'.heap == st.heap
      && multiset(st'.items) == multiset(st.items) && |st'.items| == |st.items|
      && (forall x :: x in st'.items <==> x in st.items)
  {
    var st' := SortStore(st, c);
    assert |multiset(st'.items)| == |st'.items| && |multiset(st.items)| == |st.items|;
    if c.FieldName? {
      PermutationDistinct(st.items, st'.items);
      forall x ensures x in st'.items <==> x in st.items {
        assert x in st'.items <==> x in multiset(st'.items);
        assert x in st.items <==> x in multiset(st.items);
      }
      forall h | h in st'.items
        ensures KeyOf(st', idAttr, h) == KeyOf(st, idAttr, h) && Truthy(IdOf(st', idAttr, h))
      {
        assert h in multiset(st'.items);
        assert h in st.items;
      }
    }
  }

  /** Sorting reads only the fields of the stored records: two heaps that agree on them
      give the same order. */
  lemma SortFrame<H>(st: Store<H>, heap: map<H, Fields>, c: Comparator)
    requires forall x :: x in st.items ==> FieldsIn(heap, x) == FieldsIn(st.heap, x)
    ensures SortStore(st.(heap := heap), c).items == SortStore(st, c).items
  {
    if c.FieldName? {
      forall y | y in st.items ensures SortKey(heap, c.name)(y) == SortKey(st.heap, c.name)(y) {
      }
      SortByCongruent(st.items, SortKey(heap, c.name), SortKey(st.heap, c.name));
    }
  }

  lemma AddIndexed<H>(st: Store<H>, idAttr: string, c: Comparator, batch: seq<H>, noSort: bool,
                      draws: nat -> Guid.Draw, used: nat)
    requires Indexed(st, idAttr)
    ensures Indexed(Add(st, idAttr, c, batch, noSort, draws, used).0, idAttr)
  {
    AddLoopIndexed(st, idAttr, batch, draws, used);
    SortIndexed(AddLoop(st, idAttr, batch, draws, used).0, c, idAttr);
  }

  // ---------------------------------------------------------------------------
  // remove

  lemma RemoveAtMembers<H>(s: seq<H>, i: nat)
    requires i < |s| && Distinct(s)
    ensures Distinct(RemoveAt(s, i))
    ensures forall x :: x in RemoveAt(s, i) <==> x in s && x != s[i]
  {
    var r := RemoveAt(s, i);
    forall x ensures x in r <==> x in s && x != s[i] {
      if x in r {
        var j :| 0 <= j < |r| && r[j] == x;
        if j < i { assert s[j] == x; } else { assert s[j + 1] == x; }
      }
      if x in s && x != s[i] {
        var j :| 0 <= j < |s| && s[j] == x;
        if j < i { assert r[j] == x; } else { assert r[j - 1] == x; }
      }
    }
    forall a, b | 0 <= a < b < |r| ensures r[a] != r[b] {
      var a' := if a < i then a else a + 1;
      var b' := if b < i then b else b + 1;
      assert r[a] == s[a'] && r[b] == s[b'];
    }
  }

  lemma RemoveOneIndexed<H>(st: Store<H>, idAttr: string, h: H)
    requires Indexed(st, idAttr) && h in st.items
    ensures var st' := RemoveOne(st, idAttr, h);
      Indexed(st', idAttr) && |st'.items| == |st.items| - 1 && st'.heap == st.heap
      && (forall x :: x in st'.items <==> x in st.items && x != h)
  {
    var st' := RemoveOne(st, idAttr, h);
    var i := IndexOf(st.items, h);
    var k := KeyOf(st, idAttr, h);
    RemoveAtMembers(st.items, i);
    forall x | x in st'.items
      ensures KeyOf(st', idAttr, x) == KeyOf(st, idAttr, x) != k && KeyOf(st, idAttr, x) in st'.hash
    {
      assert st.hash[KeyOf(st, idAttr, x)] == x;
    }
  }

  lemma {:induction false} RemoveListIndexed<H>(st: Store<H>, idAttr: string, batch: seq<H>)
    requires Indexed(st, idAttr)
    ensures var st' := RemoveList(st, idAttr, batch);
      Indexed(st', idAttr) && st'.heap == st.heap
    decreases |batch|
  {
    if batch != [] && batch[0] in st.items {
      RemoveOneIndexed(st, idAttr, batch[0]);
      RemoveListIndexed(RemoveOne(st, idAttr, batch[0]), idAttr, batch[1..]);
    }
  }

  lemma {:induction false} RemoveOwnIndexed<H>(st: Store<H>, idAttr: string, i: nat, l: nat)
    requires Indexed(st, idAttr)
    ensures var st' := RemoveOwn(st, idAttr, i, l);
      Indexed(st', idAttr) && st'.heap == st.heap
    decreases l - i
  {
    if i < l {
      if i >= |st.items| {
        RemoveOwnIndexed(st, idAttr, i + 1, l);
      } else {
        RemoveOneIndexed(st, idAttr, st.items[i]);
        RemoveOwnIndexed(RemoveOne(st, idAttr, st.items[i]), idAttr, i + 1, l);
      }
    }
  }

  // ---------------------------------------------------------------------------
  // Consequences

  /** The property names of the records of `s`. */
  ghost function KeySet<H>(st: Store<H>, idAttr: string, s: seq<H>): set<string>
    decreases |s|
  {
    if s == [] then {} else KeySet(st, idAttr, s[..|s| - 1]) + {KeyOf(st, idAttr, s[|s| - 1])}
  }

  lemma {:induction false} KeySetSize<H>(st: Store<H>, idAttr: string, s: seq<H>)
    requires Indexed(st, idAttr) && Distinct(s) && forall x :: x in s ==> x in st.items
    ensures |KeySet(st, idAttr, s)| == |s|
    ensures forall x :: x in s ==> KeyOf(st, idAttr, x) in KeySet(st, idAttr, s)
    ensures forall k :: k in KeySet(st, idAttr, s) ==> k in st.hash && st.hash[k] in s
    decreases |s|
  {
    if s != [] {
      var t, x := s[..|s| - 1], s[|s| - 1];
      assert s == t + [x];
      assert Distinct(t);
      KeySetSize(st, idAttr, t);
      assert x !in t by {
        forall i | 0 <= i < |t| ensures t[i] != x {
          assert s[i] != s[|s| - 1];
        }
      }
      assert st.hash[KeyOf(st, idAttr, x)] == x;
    }
  }

  /** The index holds exactly one entry per record of `array`. */
  lemma IndexSize<H>(st: Store<H>, idAttr: string)
    requires Indexed(st, idAttr)
    ensures |st.hash| == |st.items|
  {
    KeySetSize(st, idAttr, st.items);
    var ks := KeySet(st, idAttr, st.items);
    assert st.hash.Keys == ks;
  }

  /** No two records of `array` share an id's property name. */
  lemma IdsUnique<H>(st: Store<H>, idAttr: string, i: nat, j: nat)
    requires Indexed(st, idAttr) && i < j < |st.items|
    ensures KeyOf(st, idAttr, st.items[i]) != KeyOf(st, idAttr, st.items[j])
  {
    assert st.items[i] in st.items && st.items[j] in st.items;
  }
}
