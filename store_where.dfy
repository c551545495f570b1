/** What `where` (lines 97-138) and `find` select: the records of the array that pass
    the predicate, in array order, or the first of them. */
module StoreWhere {
  import opened Values
  import opened StoreSpec

  /** A record is selected exactly when it is in the list and its test comes out `keep`. */
  lemma {:induction false} FilterMembers<H>(st: Store<H>, s: seq<H>, e: Expr, keep: bool, x: H)
    ensures x in Filter(st, s, e, keep) <==> x in s && Test(e, FieldsOf(st, x)) == keep
    decreases |s|
  {
    if s != [] {
      var t := s[..|s| - 1];
      assert s == t + [s[|s| - 1]];
      FilterMembers(st, t, e, keep, x);
    }
  }

  /** Selecting from a concatenation selects from each part in turn. */
  lemma {:induction false} FilterAppend<H>(st: Store<H>, s: seq<H>, t: seq<H>, e: Expr, keep: bool)
    ensures Filter(st, s + t, e, keep) == Filter(st, s, e, keep) + Filter(st, t, e, keep)
    decreases |t|
  {
    if t != [] {
      var u := t[..|t| - 1];
      assert (s + t)[..|s + t| - 1] == s + u;
      var x := t[|t| - 1];
      assert (s + t)[|s + t| - 1] == x;
      FilterAppend(st, s, u, e, keep);
      var tail := if Test(e, FieldsOf(st, x)) == keep then [x] else [];
      assert Filter(st, s + t, e, keep) == Filter(st, s + u, e, keep) + tail;
      assert Filter(st, t, e, keep) == Filter(st, u, e, keep) + tail;
    } else {
      assert s + t == s;
    }
  }

  /** The matches and the records left over split the list between them. */
  lemma {:induction false} FilterSplits<H>(st: Store<H>, s: seq<H>, e: Expr)
    ensures |Filter(st, s, e, true)| + |Filter(st, s, e, false)| == |s|
    decreases |s|
  {
    if s != [] {
      FilterSplits(st, s[..|s| - 1], e);
    }
  }

  /** A selection from a list without repeats has none. */
  lemma {:induction false} FilterDistinct<H>(st: Store<H>, s: seq<H>, e: Expr, keep: bool)
    requires Distinct(s)
    ensures Distinct(Filter(st, s, e, keep))
    decreases |s|
  {
    if s != [] {
      var t, x := s[..|s| - 1], s[|s| - 1];
      assert Distinct(t);
      FilterDistinct(st, t, e, keep);
      forall i | 0 <= i < |t| ensures t[i] != x {
        assert s[i] == t[i];
      }
      FilterMembers(st, t, e, keep, x);
    }
  }

  /** The matches in a list without repeats are records of it, without repeats. */
  lemma FilterStored<H>(st: Store<H>, s: seq<H>, e: Expr)
    requires Distinct(s)
    ensures var m := Filter(st, s, e, true);
      Distinct(m) && forall x :: x in m ==> x in s
  {
    FilterDistinct(st, s, e, true);
    forall x | x in Filter(st, s, e, true) ensures x in s {
      FilterMembers(st, s, e, true, x);
    }
  }

  /** When no record's test comes out `keep`, nothing is selected. */
  lemma {:induction false} NothingSelected<H>(st: Store<H>, s: seq<H>, e: Expr, keep: bool)
    requires forall x :: x in s ==> Test(e, FieldsOf(st, x)) != keep
    ensures Filter(st, s, e, keep) == []
    decreases |s|
  {
    if s != [] {
      var t := s[..|s| - 1];
      assert forall x :: x in t ==> x in s;
      NothingSelected(st, t, e, keep);
    }
  }

  /** Nothing selected from a prefix means no record of the prefix passes. */
  lemma NoneBefore<H>(st: Store<H>, s: seq<H>, e: Expr, i: nat)
    requires i <= |s| && Filter(st, s[..i], e, true) == []
    ensures forall j :: 0 <= j < i ==> !Test(e, FieldsOf(st, s[j]))
  {
    forall j | 0 <= j < i ensures !Test(e, FieldsOf(st, s[j])) {
      assert s[..i][j] == s[j];
      FilterMembers(st, s[..i], e, true, s[j]);
    }
  }

  /** `find` returns the record at the first position whose test passes. */
  lemma FirstAt<H>(st: Store<H>, s: seq<H>, e: Expr, i: nat)
    requires i < |s| && Test(e, FieldsOf(st, s[i]))
    requires forall j :: 0 <= j < i ==> !Test(e, FieldsOf(st, s[j]))
    ensures First(st, s, e) == Some(s[i])
  {
    var p := s[..i];
    forall x | x in p ensures !Test(e, FieldsOf(st, x)) {
      var j :| 0 <= j < |p| && p[j] == x;
      assert s[j] == x;
    }
    NothingSelected(st, p, e, true);
    assert s[..i + 1][..i] == p && s[..i + 1][i] == s[i];
    assert Filter(st, s[..i + 1], e, true) == [s[i]];
    assert s == s[..i + 1] + s[i + 1..];
    FilterAppend(st, s[..i + 1], s[i + 1..], e, true);
  }

  /** `find` gives `undefined` exactly when no record passes. */
  lemma FirstNone<H>(st: Store<H>, s: seq<H>, e: Expr)
    ensures First(st, s, e) == None <==> forall x :: x in s ==> !Test(e, FieldsOf(st, x))
  {
    if First(st, s, e) == None {
      forall x | x in s ensures !Test(e, FieldsOf(st, x)) {
        FilterMembers(st, s, e, true, x);
      }
    } else {
      FilterMembers(st, s, e, true, First(st, s, e).value);
    }
  }
}
