/** What `remove` (lines 149-170), `removeAll` (172-176) and `removeWhere` (178-183)
    leave in the array. */
module StoreRemove {
  import opened Values
  import opened StoreSpec
  import opened StoreInvariant
  import opened StoreWhere

  // ---------------------------------------------------------------------------
  // Without

  lemma {:induction false} WithoutNothing<H>(s: seq<H>)
    ensures Without(s, {}) == s
    decreases |s|
  {
    if s != [] {
      WithoutNothing(s[..|s| - 1]);
    }
  }

  lemma {:induction false} WithoutAbsent<H>(s: seq<H>, d: set<H>, x: H)
    requires x !in s
    ensures Without(s, d + {x}) == Without(s, d)
    decreases |s|
  {
    if s != [] {
      var t := s[..|s| - 1];
      assert x !in t by {
        forall i | 0 <= i < |t| ensures t[i] != x {
          assert t[i] == s[i];
        }
      }
      WithoutAbsent(t, d, x);
    }
  }

  /** Splicing out one element of a list without repeats is dropping it by value. */
  lemma {:induction false} WithoutRemoveAt<H>(s: seq<H>, i: nat, d: set<H>)
    requires i < |s| && Distinct(s)
    ensures Without(RemoveAt(s, i), d) == Without(s, d + {s[i]})
    decreases |s|
  {
    var n := |s|;
    var t, last := s[..n - 1], s[n - 1];
    assert Distinct(t);
    if i == n - 1 {
      assert RemoveAt(s, i) == t;
      assert last !in t by {
        forall j | 0 <= j < |t| ensures t[j] != last {
          assert t[j] == s[j];
        }
      }
      WithoutAbsent(t, d, last);
    } else {
      assert RemoveAt(s, i) == RemoveAt(t, i) + [last];
      assert RemoveAt(s, i)[..n - 2] == RemoveAt(t, i);
      assert t[i] == s[i] && s[i] != last;
      WithoutRemoveAt(t, i, d);
    }
  }

  // ---------------------------------------------------------------------------
  // remove, from a separate list

  lemma IndexOfDistinct<H>(s: seq<H>, i: nat)
    requires i < |s| && Distinct(s)
    ensures IndexOf(s, s[i]) == i
  {
  }

  /** Turn `i` of `remove(models)`, `list` being the list as that turn reads it: a read
      past its end is skipped, an entry the array lacks ends the call, any other entry
      is spliced out before the next turn. */
  lemma RemoveFromTurn<H>(st: Store<H>, idAttr: string, own: bool, batch0: seq<H>, i: nat, list: seq<H>)
    requires i < |batch0| && Distinct(st.items)
    requires own ==> list == st.items
    requires !own ==> list == batch0
    ensures i >= |list| ==> own && RemoveFrom(st, idAttr, own, batch0, i + 1) == RemoveFrom(st, idAttr, own, batch0, i)
    ensures i < |list| && list[i] !in st.items ==> !own && RemoveFrom(st, idAttr, own, batch0, i) == st
    ensures i < |list| && list[i] in st.items ==>
      && (own ==> IndexOf(st.items, list[i]) == i)
      && RemoveFrom(RemoveOne(st, idAttr, list[i]), idAttr, own, batch0, i + 1) == RemoveFrom(st, idAttr, own, batch0, i)
  {
    if i < |list| && own {
      IndexOfDistinct(st.items, i);
    }
    if !own {
      assert batch0[i..][0] == batch0[i] && batch0[i..][1..] == batch0[i + 1..];
    }
  }

  /** The rest of a distinct batch of stored records is a distinct batch of records
      still stored once its head is removed. */
  lemma RemoveListHead<H>(st: Store<H>, idAttr: string, batch: seq<H>)
    requires Distinct(st.items) && Distinct(batch) && batch != []
    requires forall x :: x in batch ==> x in st.items
    ensures batch[0] in st.items
    ensures RemoveOne(st, idAttr, batch[0]).items == RemoveAt(st.items, IndexOf(st.items, batch[0]))
    ensures Distinct(RemoveOne(st, idAttr, batch[0]).items) && Distinct(batch[1..])
    ensures forall x :: x in batch[1..] ==> x in RemoveOne(st, idAttr, batch[0]).items
  {
    var h, rest := batch[0], batch[1..];
    var st1 := RemoveOne(st, idAttr, h);
    RemoveAtMembers(st.items, IndexOf(st.items, h));
    forall x | x in rest ensures x in st1.items {
      var j :| 0 <= j < |rest| && rest[j] == x;
      assert batch[j + 1] == x;
    }
  }

  lemma HeadSet<H>(batch: seq<H>)
    requires batch != []
    ensures (set x | x in batch[1..]) + {batch[0]} == set x | x in batch
  {
    assert batch == [batch[0]] + batch[1..];
  }

  /** Removing distinct stored records drops exactly those, keeping the order of the rest. */
  lemma {:induction false} RemoveListAll<H>(st: Store<H>, idAttr: string, batch: seq<H>)
    requires Distinct(st.items) && Distinct(batch)
    requires forall x :: x in batch ==> x in st.items
    ensures RemoveList(st, idAttr, batch).items == Without(st.items, set x | x in batch)
    decreases |batch|
  {
    if batch == [] {
      assert (set x | x in batch) == {};
      WithoutNothing(st.items);
    } else {
      var h, rest := batch[0], batch[1..];
      RemoveListHead(st, idAttr, batch);
      var st1 := RemoveOne(st, idAttr, h);
      RemoveListAll(st1, idAttr, rest);
      var d := set x | x in rest;
      WithoutRemoveAt(st.items, IndexOf(st.items, h), d);
      HeadSet(batch);
    }
  }

  /** An entry that is not in the array ends `remove`: the entries after it stay. */
  lemma {:induction false} RemoveListStops<H>(st: Store<H>, idAttr: string, p: seq<H>, x: H, q: seq<H>)
    requires Distinct(st.items) && Distinct(p)
    requires forall y :: y in p ==> y in st.items
    requires x !in st.items
    ensures RemoveList(st, idAttr, p + [x] + q) == RemoveList(st, idAttr, p)
    decreases |p|
  {
    if p == [] {
      assert (p + [x] + q)[0] == x;
    } else {
      var h := p[0];
      var st1 := RemoveOne(st, idAttr, h);
      RemoveAtMembers(st.items, IndexOf(st.items, h));
      assert (p + [x] + q)[0] == h && (p + [x] + q)[1..] == p[1..] + [x] + q;
      forall y | y in p[1..] ensures y in st1.items {
        var j :| 0 <= j < |p[1..]| && p[1..][j] == y;
        assert p[j + 1] == y && p[0] != y;
      }
      assert Distinct(p[1..]);
      RemoveListStops(st1, idAttr, p[1..], x, q);
    }
  }

  // ---------------------------------------------------------------------------
  // removeAll: `remove(this.array)` over the live array

  /** Once the turn number passes the array's end, the remaining turns read `undefined`. */
  lemma {:induction false} RemoveOwnPastEnd<H>(st: Store<H>, idAttr: string, i: nat, l: nat)
    requires |st.items| <= i
    ensures RemoveOwn(st, idAttr, i, l) == st
    decreases l - i
  {
    if i < l {
      RemoveOwnPastEnd(st, idAttr, i + 1, l);
    }
  }

  lemma OddPositionsGrow<H>(s: seq<H>, i: nat)
    requires 2 * i + 2 <= |s|
    ensures OddPositions(s[..2 * i]) + [s[2 * i + 1]] == OddPositions(s[..2 * i + 2])
  {
  }

  lemma OddPositionsLast<H>(s: seq<H>, i: nat)
    requires 2 * i + 1 == |s|
    ensures OddPositions(s[..2 * i]) == OddPositions(s)
  {
  }

  lemma RemoveOwnStep<H>(st: Store<H>, idAttr: string, s: seq<H>, i: nat)
    requires Distinct(st.items) && 2 * i < |s|
    requires st.items == OddPositions(s[..2 * i]) + s[2 * i..]
    ensures i < |st.items|
    ensures var next := RemoveOne(st, idAttr, st.items[i]);
      Distinct(next.items) && next.items == OddPositions(s[..2 * i]) + s[2 * i + 1..]
  {
    var a := OddPositions(s[..2 * i]);
    assert |a| == i;
    assert st.items[i] == s[2 * i];
    IndexOfDistinct(st.items, i);
    RemoveAtMembers(st.items, i);
    assert st.items[..i] == a;
    assert st.items[i..] == s[2 * i..];
    assert st.items[i + 1..] == st.items[i..][1..];
    assert s[2 * i..][1..] == s[2 * i + 1..];
  }

  /** Turn `i` of `remove(this.array)`: the first `i` turns have spliced out the records
      at positions 0, 2, ..., 2i - 2, and turn `i` reads the one at 2i. */
  lemma {:induction false} RemoveOwnTurns<H>(st: Store<H>, idAttr: string, s: seq<H>, i: nat)
    requires Distinct(st.items) && 2 * i <= |s|
    requires st.items == OddPositions(s[..2 * i]) + s[2 * i..]
    ensures RemoveOwn(st, idAttr, i, |s|).items == OddPositions(s)
    decreases |s| - 2 * i
  {
    var n := |s|;
    if 2 * i == n {
      assert s[..2 * i] == s && s[2 * i..] == [];
      RemoveOwnPastEnd(st, idAttr, i, n);
    } else {
      var next := RemoveOne(st, idAttr, st.items[i]);
      RemoveOwnStep(st, idAttr, s, i);
      assert RemoveOwn(st, idAttr, i, n) == RemoveOwn(next, idAttr, i + 1, n);
      if 2 * i + 1 == n {
        RemoveOwnLastTurn(next, idAttr, s, i);
      } else {
        TurnInvariantGrows(next.items, s, i);
        RemoveOwnTurns(next, idAttr, s, i + 1);
      }
    }
  }

  lemma RemoveOwnLastTurn<H>(st: Store<H>, idAttr: string, s: seq<H>, i: nat)
    requires 2 * i + 1 == |s| && st.items == OddPositions(s[..2 * i]) + s[2 * i + 1..]
    ensures RemoveOwn(st, idAttr, i + 1, |s|).items == OddPositions(s)
  {
    assert s[2 * i + 1..] == [];
    OddPositionsLast(s, i);
    RemoveOwnPastEnd(st, idAttr, i + 1, |s|);
  }

  lemma TurnInvariantGrows<H>(items: seq<H>, s: seq<H>, i: nat)
    requires 2 * i + 2 <= |s| && items == OddPositions(s[..2 * i]) + s[2 * i + 1..]
    ensures items == OddPositions(s[..2 * (i + 1)]) + s[2 * (i + 1)..]
  {
    OddPositionsGrow(s, i);
    assert s[2 * i + 1..] == [s[2 * i + 1]] + s[2 * i + 2..];
  }

  /** `removeAll` as written removes only the records at even positions: the records at
      positions 1, 3, 5, ... stay, in order. */
  lemma RemoveAllAsWritten<H>(st: Store<H>, idAttr: string)
    requires Distinct(st.items)
    ensures RemoveOwn(st, idAttr, 0, |st.items|).items == OddPositions(st.items)
  {
    assert st.items[..0] == [] && st.items[0..] == st.items;
    assert OddPositions(st.items[..0]) == [];
    RemoveOwnTurns(st, idAttr, st.items, 0);
  }

  /** So `removeAll` on two or more records leaves the store non-empty. */
  lemma RemoveAllKeepsSecond<H>(st: Store<H>, idAttr: string)
    requires Distinct(st.items) && |st.items| >= 2
    ensures var r := RemoveOwn(st, idAttr, 0, |st.items|);
      |r.items| == |st.items| / 2 && r.items[0] == st.items[1]
  {
    RemoveAllAsWritten(st, idAttr);
  }

  /** Removing every record, one after another from a copy of the array, empties it. */
  lemma RemoveAllCorrected<H>(st: Store<H>, idAttr: string)
    requires Distinct(st.items)
    ensures RemoveList(st, idAttr, st.items).items == []
  {
    RemoveListAll(st, idAttr, st.items);
    WithoutEverything(st.items, set x | x in st.items);
  }

  lemma {:induction false} WithoutEverything<H>(s: seq<H>, d: set<H>)
    requires forall x :: x in s ==> x in d
    ensures Without(s, d) == []
    decreases |s|
  {
    if s != [] {
      assert forall x :: x in s[..|s| - 1] ==> x in s;
      WithoutEverything(s[..|s| - 1], d);
    }
  }

  // ---------------------------------------------------------------------------
  // removeWhere

  /** Dropping the matches of `e` leaves the records whose test fails, in order. */
  lemma {:induction false} WithoutMatches<H>(st: Store<H>, s: seq<H>, e: Expr, d: set<H>)
    requires forall x :: x in s ==> (x in d <==> Test(e, FieldsOf(st, x)))
    ensures Without(s, d) == Filter(st, s, e, false)
    decreases |s|
  {
    if s != [] {
      assert forall x :: x in s[..|s| - 1] ==> x in s;
      WithoutMatches(st, s[..|s| - 1], e, d);
    }
  }

  /** `removeWhere(e)` keeps exactly the records that fail the test, in their order. */
  lemma RemoveWhereKeepsRest<H>(st: Store<H>, idAttr: string, e: Expr)
    requires Distinct(st.items)
    ensures RemoveList(st, idAttr, Filter(st, st.items, e, true)).items == Filter(st, st.items, e, false)
  {
    var m := Filter(st, st.items, e, true);
    FilterDistinct(st, st.items, e, true);
    forall x | x in st.items ensures x in m <==> Test(e, FieldsOf(st, x)) {
      FilterMembers(st, st.items, e, true, x);
    }
    forall x | x in m ensures x in st.items {
      FilterMembers(st, st.items, e, true, x);
    }
    RemoveListAll(st, idAttr, m);
    WithoutMatches(st, st.items, e, set x | x in m);
  }
}
