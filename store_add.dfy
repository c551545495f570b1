/** What `get` finds and what `add` (lines 44-76) does to the store. */
module StoreAdd {
  import opened Values
  import opened StoreSpec
  import opened StoreInvariant
  import Guid

  // ---------------------------------------------------------------------------
  // get

  /** A stored record is what `get` finds for itself. */
  lemma GetFindsStored<H>(st: Store<H>, idAttr: string, h: H)
    requires Indexed(st, idAttr) && h in st.items
    ensures Get(st, idAttr, ByRecord(h)) == Some(h)
  {
    assert TargetOf(st, ByRecord(h)) == RecordWith(FieldsOf(st, h));
  }

  /** `get(id)` for an id that is neither `null` nor `undefined` gives exactly the stored
      record whose id has the same property name, so `get(1)` and `get('1')` agree. */
  lemma GetById<H>(st: Store<H>, idAttr: string, v: Value, r: H)
    requires Indexed(st, idAttr) && !v.Null? && !v.Undefined?
    ensures var p := PrimitiveProperty(v, idAttr);
      var k := if Truthy(p) then Key(p) else Key(v);
      Get(st, idAttr, ById(v)) == Some(r) <==> r in st.items && KeyOf(st, idAttr, r) == k
  {
    var p := PrimitiveProperty(v, idAttr);
    var k := if Truthy(p) then Key(p) else Key(v);
    assert GetKey(idAttr, RawId(v)) == Some(k);
    if r in st.items && KeyOf(st, idAttr, r) == k {
      assert st.hash[k] == r;
    }
  }

  /** With `idAttribute` set to `length`, `get("abc")` reads `hash["3"]`, and with the
      default `id` it reads `hash["abc"]`. */
  lemma GetStringId()
    ensures GetKey("length", RawId(Str("abc"))) == Some("3")
    ensures GetKey("id", RawId(Str("abc"))) == Some("abc")
  {
    assert Decimal(3) == "3";
  }

  /** Two indexed stores over the same records and fields have the same index. */
  lemma IndexDetermined<H>(st: Store<H>, hash: map<string, H>, idAttr: string)
    requires Indexed(st, idAttr) && Indexed(st.(hash := hash), idAttr)
    ensures hash == st.hash
  {
    var st' := st.(hash := hash);
    forall k | k in st.hash ensures k in hash && hash[k] == st.hash[k] {
      var x := st.hash[k];
      assert KeyOf(st', idAttr, x) == KeyOf(st, idAttr, x);
    }
    forall k | k in hash ensures k in st.hash {
      var x := hash[k];
      assert KeyOf(st', idAttr, x) == KeyOf(st, idAttr, x);
    }
  }

  // ---------------------------------------------------------------------------
  // add, one record

  /** One record of the batch: it gets a generated id when its own is falsy, drawing
      one id from the source; then, if a record is filed under its id, it is merged
      into that record and the array and index stay as they were; otherwise it is
      appended and filed under its id. A merge copies every field but `$$hashKey`, so
      under that id attribute the stored record keeps its own id. */
  lemma AddStepOutcome<H>(st: Store<H>, idAttr: string, h: H, draws: nat -> Guid.Draw, used: nat)
    requires Indexed(st, idAttr)
    ensures var g := Guid.Format(draws(used));
      var id := if Truthy(IdOf(st, idAttr, h)) then IdOf(st, idAttr, h) else Str(g);
      var r := AddStep(st, idAttr, h, draws, used);
      && r.1 == (if Truthy(IdOf(st, idAttr, h)) then used else used + 1)
      && Truthy(IdOf(r.0, idAttr, h))
      && (Key(id) in st.hash ==>
            var e := st.hash[Key(id)];
            && r.0.items == st.items && r.0.hash == st.hash
            && IdOf(r.0, idAttr, e) == (if idAttr == HashKey then IdOf(st, idAttr, e) else id)
            && (forall k :: k in FieldsOf(st, h) && k != idAttr && k != HashKey ==>
                  FieldsOf(r.0, e)[k] == FieldsOf(st, h)[k]))
      && (Key(id) !in st.hash ==>
            && r.0.items == st.items + [h] && r.0.hash == st.hash[Key(id) := h]
            && IdOf(r.0, idAttr, h) == id)
  {
    var g := Guid.Format(draws(used));
    var st1 := AssignId(st, idAttr, h, g);
    AssignIdIndexed(st, idAttr, h, g);
    var id := if Truthy(IdOf(st, idAttr, h)) then IdOf(st, idAttr, h) else Str(g);
    assert IdOf(st1, idAttr, h) == id;
    assert forall k :: k in FieldsOf(st, h) && k != idAttr ==> FieldsOf(st1, h)[k] == FieldsOf(st, h)[k];
    assert Get(st1, idAttr, ByRecord(h)) == HashAt(st.hash, Some(Key(id)));
    if Key(id) in st.hash {
      MergeKeepsKey(st1, idAttr, h, st.hash[Key(id)]);
    }
  }

  /** What one turn of the loop keeps: records with a truthy id keep their property
      name, the index only grows, stored records stay stored, and the only record that
      can join the array is the candidate, which ends up with a truthy id and filed. */
  lemma AddStepKeeps<H>(st: Store<H>, idAttr: string, h: H, draws: nat -> Guid.Draw, used: nat)
    requires Indexed(st, idAttr)
    ensures var r := AddStep(st, idAttr, h, draws, used).0;
      && Truthy(IdOf(r, idAttr, h)) && KeyOf(r, idAttr, h) in r.hash
      && (forall x :: Truthy(IdOf(st, idAttr, x)) ==>
            Truthy(IdOf(r, idAttr, x)) && KeyOf(r, idAttr, x) == KeyOf(st, idAttr, x))
      && (forall k :: k in st.hash ==> k in r.hash)
      && (forall x :: x in st.items ==> x in r.items)
      && (forall x :: x in r.items ==> x in st.items || x == h)
  {
    var g := Guid.Format(draws(used));
    var st1 := AssignId(st, idAttr, h, g);
    AssignIdIndexed(st, idAttr, h, g);
    AssignIdKeeps(st, idAttr, h, g);
    PlaceKeeps(st1, idAttr, h);
  }

  /** Giving `h` an id changes no truthy id. */
  lemma AssignIdKeeps<H>(st: Store<H>, idAttr: string, h: H, g: string)
    ensures forall x :: Truthy(IdOf(st, idAttr, x)) ==> IdOf(AssignId(st, idAttr, h, g), idAttr, x) == IdOf(st, idAttr, x)
  {
  }

  /** What placing a candidate with a truthy id keeps. */
  lemma PlaceKeeps<H>(st: Store<H>, idAttr: string, h: H)
    requires Indexed(st, idAttr) && Truthy(IdOf(st, idAttr, h))
    ensures var r := Place(st, idAttr, h);
      && Truthy(IdOf(r, idAttr, h)) && KeyOf(r, idAttr, h) in r.hash
      && (forall x :: Truthy(IdOf(st, idAttr, x)) ==>
            Truthy(IdOf(r, idAttr, x)) && KeyOf(r, idAttr, x) == KeyOf(st, idAttr, x))
      && (forall k :: k in st.hash ==> k in r.hash)
      && (forall x :: x in st.items ==> x in r.items)
      && (forall x :: x in r.items ==> x in st.items || x == h)
  {
    var k := KeyOf(st, idAttr, h);
    if k in st.hash {
      PlaceMerge(st, idAttr, h);
      MergeKeepsKey(st, idAttr, h, st.hash[k]);
    } else {
      PlaceNew(st, idAttr, h);
    }
  }

  /** A candidate that has a truthy id draws no id and is placed as it is. */
  lemma StepWithId<H>(st: Store<H>, idAttr: string, h: H, draws: nat -> Guid.Draw, used: nat)
    requires Truthy(IdOf(st, idAttr, h))
    ensures AddStep(st, idAttr, h, draws, used) == (Place(st, idAttr, h), used)
  {
  }

  /** Placing a stored record merges it into itself: nothing changes. */
  lemma PlaceStored<H>(st: Store<H>, idAttr: string, h: H)
    requires Indexed(st, idAttr) && h in st.items
    ensures Place(st, idAttr, h) == st
  {
    GetFindsStored(st, idAttr, h);
    assert h in st.heap;
    assert Extend(FieldsOf(st, h), FieldsOf(st, h)) == st.heap[h];
    assert st.heap[h := st.heap[h]] == st.heap;
  }

  /** Placing a record whose truthy id is not filed appends it. */
  lemma PlaceNew<H>(st: Store<H>, idAttr: string, h: H)
    requires Truthy(IdOf(st, idAttr, h)) && KeyOf(st, idAttr, h) !in st.hash
    ensures Place(st, idAttr, h) == st.(items := st.items + [h], hash := st.hash[KeyOf(st, idAttr, h) := h])
  {
    assert Get(st, idAttr, ByRecord(h)) == None;
  }

  /** Placing a record whose truthy id is filed merges it into the filed record. */
  lemma PlaceMerge<H>(st: Store<H>, idAttr: string, h: H)
    requires Truthy(IdOf(st, idAttr, h)) && KeyOf(st, idAttr, h) in st.hash
    ensures var e := st.hash[KeyOf(st, idAttr, h)];
      Place(st, idAttr, h) == st.(heap := st.heap[e := Extend(FieldsOf(st, e), FieldsOf(st, h))])
  {
    assert Get(st, idAttr, ByRecord(h)) == Some(st.hash[KeyOf(st, idAttr, h)]);
  }

  // ---------------------------------------------------------------------------
  // add, a batch

  /** Over a whole batch: every candidate ends with a truthy id filed in the index,
      every record that was stored stays stored under the same property name, and the
      array gains nothing but candidates. */
  lemma {:induction false} AddLoopKeeps<H>(st: Store<H>, idAttr: string, batch: seq<H>, draws: nat -> Guid.Draw, used: nat)
    requires Indexed(st, idAttr)
    ensures var r := AddLoop(st, idAttr, batch, draws, used).0;
      && (forall x :: x in batch ==> Truthy(IdOf(r, idAttr, x)) && KeyOf(r, idAttr, x) in r.hash)
      && (forall x :: x in st.items ==> x in r.items && KeyOf(r, idAttr, x) == KeyOf(st, idAttr, x))
      && (forall x :: x in r.items ==> x in st.items || x in batch)
    decreases |batch|
  {
    if batch != [] {
      var init, h := batch[..|batch| - 1], batch[|batch| - 1];
      var prev := AddLoop(st, idAttr, init, draws, used);
      AddLoopKeeps(st, idAttr, init, draws, used);
      AddLoopIndexed(st, idAttr, init, draws, used);
      AddStepKeeps(prev.0, idAttr, h, draws, prev.1);
      var r := AddLoop(st, idAttr, batch, draws, used).0;
      assert r == AddStep(prev.0, idAttr, h, draws, prev.1).0;
      forall x | x in st.items
        ensures x in r.items && KeyOf(r, idAttr, x) == KeyOf(st, idAttr, x)
      {
        assert Truthy(IdOf(prev.0, idAttr, x));
      }
      forall x | x in batch
        ensures Truthy(IdOf(r, idAttr, x)) && KeyOf(r, idAttr, x) in r.hash
      {
        if x != h {
          assert x in init;
        }
      }
      forall x | x in r.items ensures x in st.items || x in batch {
        if x != h {
          assert x in prev.0.items;
        }
      }
    }
  }

  /** The loop's last turn. */
  lemma AddLoopSnoc<H>(st: Store<H>, idAttr: string, batch: seq<H>, h: H, draws: nat -> Guid.Draw, used: nat)
    ensures var prev := AddLoop(st, idAttr, batch, draws, used);
      AddLoop(st, idAttr, batch + [h], draws, used) == AddStep(prev.0, idAttr, h, draws, prev.1)
  {
    assert (batch + [h])[..|batch|] == batch;
  }

  /** One more turn of `add`'s loop, counted by position in the batch. */
  lemma AddLoopTurn<H>(st: Store<H>, idAttr: string, batch: seq<H>, i: nat, draws: nat -> Guid.Draw, used: nat)
    requires i < |batch|
    ensures var prev := AddLoop(st, idAttr, batch[..i], draws, used);
      AddLoop(st, idAttr, batch[..i + 1], draws, used) == AddStep(prev.0, idAttr, batch[i], draws, prev.1)
  {
    assert batch[..i + 1] == batch[..i] + [batch[i]];
    AddLoopSnoc(st, idAttr, batch[..i], batch[i], draws, used);
  }

  /** Adding records the store already holds changes nothing and draws no id; in
      particular `add(collection.all())` is a no-op. */
  lemma {:induction false} AddStoredIsNoop<H>(st: Store<H>, idAttr: string, batch: seq<H>, draws: nat -> Guid.Draw, used: nat)
    requires Indexed(st, idAttr) && forall x :: x in batch ==> x in st.items
    ensures AddLoop(st, idAttr, batch, draws, used) == (st, used)
    decreases |batch|
  {
    if batch != [] {
      var init, h := batch[..|batch| - 1], batch[|batch| - 1];
      assert forall x :: x in init ==> x in batch;
      AddStoredIsNoop(st, idAttr, init, draws, used);
      assert h in st.items;
      StepWithId(st, idAttr, h, draws, used);
      PlaceStored(st, idAttr, h);
    }
  }

  /** After appending the first records of `batch`, the last one's id is still unfiled. */
  lemma NotYetFiled<H>(st: Store<H>, idAttr: string, batch: seq<H>, prev: Store<H>)
    requires |batch| > 0 && Indexed(prev, idAttr) && prev.heap == st.heap
    requires prev.items == st.items + batch[..|batch| - 1]
    requires forall x :: x in st.items ==> KeyOf(st, idAttr, x) in st.hash && st.hash[KeyOf(st, idAttr, x)] == x
    requires KeyOf(st, idAttr, batch[|batch| - 1]) !in st.hash
    requires forall i, j :: 0 <= i < j < |batch| ==> KeyOf(st, idAttr, batch[i]) != KeyOf(st, idAttr, batch[j])
    ensures KeyOf(prev, idAttr, batch[|batch| - 1]) !in prev.hash
  {
    var init, h := batch[..|batch| - 1], batch[|batch| - 1];
    var k := KeyOf(st, idAttr, h);
    assert KeyOf(prev, idAttr, h) == k;
    forall x | x in prev.items ensures KeyOf(prev, idAttr, x) != k {
      assert KeyOf(prev, idAttr, x) == KeyOf(st, idAttr, x);
      if x in st.items {
        assert st.hash[KeyOf(st, idAttr, x)] == x;
      } else {
        var i :| 0 <= i < |init| && init[i] == x;
        assert batch[i] == x;
      }
    }
  }

  /** A candidate with a truthy id that is not filed is appended, drawing no id. */
  lemma AppendOne<H>(st: Store<H>, idAttr: string, h: H, draws: nat -> Guid.Draw, used: nat)
    requires Truthy(IdOf(st, idAttr, h)) && KeyOf(st, idAttr, h) !in st.hash
    ensures var r := AddStep(st, idAttr, h, draws, used);
      r.0.items == st.items + [h] && r.0.heap == st.heap && r.1 == used
  {
    StepWithId(st, idAttr, h, draws, used);
    PlaceNew(st, idAttr, h);
  }

  /** Records with truthy ids that are filed neither in the store nor under each other's
      property names are appended in batch order, and no record's fields change. */
  lemma {:induction false} AddNewAppends<H>(st: Store<H>, idAttr: string, batch: seq<H>, draws: nat -> Guid.Draw, used: nat)
    requires Indexed(st, idAttr)
    requires forall x :: x in batch ==> Truthy(IdOf(st, idAttr, x)) && KeyOf(st, idAttr, x) !in st.hash
    requires forall i, j :: 0 <= i < j < |batch| ==> KeyOf(st, idAttr, batch[i]) != KeyOf(st, idAttr, batch[j])
    ensures var r := AddLoop(st, idAttr, batch, draws, used);
      r.0.items == st.items + batch && r.0.heap == st.heap && r.1 == used
    decreases |batch|
  {
    if batch != [] {
      var init, h := batch[..|batch| - 1], batch[|batch| - 1];
      assert batch == init + [h];
      FreshPrefix(st, idAttr, batch);
      AddNewAppends(st, idAttr, init, draws, used);
      var prev := AddLoop(st, idAttr, init, draws, used);
      AddLoopIndexed(st, idAttr, init, draws, used);
      NotYetFiled(st, idAttr, batch, prev.0);
      assert IdOf(prev.0, idAttr, h) == IdOf(st, idAttr, h);
      AppendOne(prev.0, idAttr, h, draws, used);
      AddLoopSnoc(st, idAttr, init, h, draws, used);
      assert AddLoop(st, idAttr, batch, draws, used) == AddStep(prev.0, idAttr, h, draws, prev.1);
      SnocAssoc(st.items, init, h);
    }
  }

  lemma SnocAssoc<H>(a: seq<H>, b: seq<H>, h: H)
    ensures a + b + [h] == a + (b + [h])
  {
  }

  /** The conditions of `AddNewAppends` hold for every prefix of the batch. */
  lemma FreshPrefix<H>(st: Store<H>, idAttr: string, batch: seq<H>)
    requires |batch| > 0
    requires forall x :: x in batch ==> Truthy(IdOf(st, idAttr, x)) && KeyOf(st, idAttr, x) !in st.hash
    requires forall i, j :: 0 <= i < j < |batch| ==> KeyOf(st, idAttr, batch[i]) != KeyOf(st, idAttr, batch[j])
    ensures var init := batch[..|batch| - 1];
      && (forall x :: x in init ==> Truthy(IdOf(st, idAttr, x)) && KeyOf(st, idAttr, x) !in st.hash)
      && (forall i, j :: 0 <= i < j < |init| ==> KeyOf(st, idAttr, init[i]) != KeyOf(st, idAttr, init[j]))
  {
    var init := batch[..|batch| - 1];
    assert forall x :: x in init ==> x in batch;
    forall i, j | 0 <= i < j < |init| ensures KeyOf(st, idAttr, init[i]) != KeyOf(st, idAttr, init[j]) {
      assert init[i] == batch[i] && init[j] == batch[j];
    }
  }

  /** Two different candidates in one batch with the same id: the first is appended,
      the second is merged into it and never stored. */
  lemma BatchDuplicatesMerge<H>(st: Store<H>, idAttr: string, a: H, b: H, draws: nat -> Guid.Draw, used: nat)
    requires a != b
    requires Truthy(IdOf(st, idAttr, a)) && Truthy(IdOf(st, idAttr, b))
    requires KeyOf(st, idAttr, a) == KeyOf(st, idAttr, b) && KeyOf(st, idAttr, a) !in st.hash
    ensures var r := AddLoop(st, idAttr, [a, b], draws, used).0;
      && r.items == st.items + [a]
      && FieldsOf(r, a) == Extend(FieldsOf(st, a), FieldsOf(st, b))
      && FieldsOf(r, b) == FieldsOf(st, b)
  {
    AddLoopSnoc(st, idAttr, [], a, draws, used);
    StepWithId(st, idAttr, a, draws, used);
    PlaceNew(st, idAttr, a);
    var st1 := Place(st, idAttr, a);
    AddLoopSnoc(st, idAttr, [a], b, draws, used);
    assert [a] + [b] == [a, b];
    assert FieldsOf(st1, b) == FieldsOf(st, b) && FieldsOf(st1, a) == FieldsOf(st, a);
    StepWithId(st1, idAttr, b, draws, used);
    PlaceMerge(st1, idAttr, b);
  }
}
