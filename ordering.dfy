/** The ascending order `sort` puts records in, and a sort by it.
    `sort` hands the array to Angular's `orderBy` filter with the comparator as the
    field to order by. In Angular 1.4 and earlier the filter's comparison orders values
    of different `typeof` by the name of that type, and compares two strings after
    lower-casing them; this module stands in for the filter with an insertion sort by
    that total preorder. */
module Ordering {
  import opened Values

  /** Lexicographic order on strings by character code. */
  predicate StrLe(a: string, b: string)
    decreases |a|
  {
    a == [] || (b != [] && (a[0] < b[0] || (a[0] == b[0] && StrLe(a[1..], b[1..]))))
  }

  lemma {:induction false} StrLeTotal(a: string, b: string)
    ensures StrLe(a, b) || StrLe(b, a)
    decreases |a|
  {
    if a != [] && b != [] && a[0] == b[0] {
      StrLeTotal(a[1..], b[1..]);
    }
  }

  lemma {:induction false} StrLeTrans(a: string, b: string, c: string)
    requires StrLe(a, b) && StrLe(b, c)
    ensures StrLe(a, c)
    decreases |a|
  {
    if a != [] && a[0] == b[0] && b[0] == c[0] {
      StrLeTrans(a[1..], b[1..], c[1..]);
    }
  }

  /** `c.toLowerCase()` for the letters `A` to `Z`. */
  function LowerChar(c: char): (l: char)
    ensures 'A' <= c <= 'Z' ==> 'a' <= l <= 'z' && l as int - c as int == 32
    ensures !('A' <= c <= 'Z') ==> l == c
  {
    if 'A' <= c <= 'Z' then (c as int + 32) as char else c
  }

  /** `s.toLowerCase()`, letter by letter. */
  function Lower(s: string): (r: string)
    ensures |r| == |s| && forall i :: 0 <= i < |s| ==> r[i] == LowerChar(s[i])
  {
    seq(|s|, i requires 0 <= i < |s| => LowerChar(s[i]))
  }

  /** Values of different `typeof` are ordered by its name: "boolean", "number",
      "object" (which `null` is), "string", "undefined". */
  function Rank(v: Value): nat {
    match v
    case Bool(_) => 0
    case Num(_) => 1
    case Null => 2
    case Str(_) => 3
    case Undefined => 4
  }

  /** `orderBy`'s comparison gives `a` no later than `b`. */
  predicate ValueLe(a: Value, b: Value) {
    if Rank(a) != Rank(b) then Rank(a) < Rank(b)
    else match a
      case Bool(x) => !x || b.b
      case Num(x) => x <= b.n
      case Str(x) => StrLe(Lower(x), Lower(b.s))
      case _ => true
  }

  lemma ValueLeTotal(a: Value, b: Value)
    ensures ValueLe(a, b) || ValueLe(b, a)
  {
    if a.Str? && b.Str? {
      StrLeTotal(Lower(a.s), Lower(b.s));
    }
  }

  /** Case does not decide the order: "a" sorts before "B", and `null` (an "object")
      after every number. */
  lemma CaseIgnored()
    ensures ValueLe(Str("a"), Str("B")) && !ValueLe(Str("B"), Str("a"))
    ensures ValueLe(Num(7), Null) && !ValueLe(Null, Num(7))
  {
    assert Lower("B") == "b";
    assert Lower("a") == "a";
  }

  lemma ValueLeTrans(a: Value, b: Value, c: Value)
    requires ValueLe(a, b) && ValueLe(b, c)
    ensures ValueLe(a, c)
  {
    if a.Str? && b.Str? && c.Str? {
      StrLeTrans(Lower(a.s), Lower(b.s), Lower(c.s));
    }
  }

  /** `s` is in ascending order of `key`. */
  ghost predicate SortedBy<H>(s: seq<H>, key: H -> Value) {
    forall i, j :: 0 <= i < j < |s| ==> ValueLe(key(s[i]), key(s[j]))
  }

  /** An element no later than the head of a sorted list is no later than any of it. */
  lemma BelowHead<H>(x: H, s: seq<H>, key: H -> Value)
    requires SortedBy(s, key) && s != [] && ValueLe(key(x), key(s[0]))
    ensures forall j :: 0 <= j < |s| ==> ValueLe(key(x), key(s[j]))
  {
    forall j | 0 <= j < |s| ensures ValueLe(key(x), key(s[j])) {
      if j > 0 { ValueLeTrans(key(x), key(s[0]), key(s[j])); }
    }
  }

  /** The head of a sorted list is no later than anything in `t`, when `t` holds its
      tail and an element the head precedes. */
  lemma AboveRest<H>(x: H, s: seq<H>, t: seq<H>, key: H -> Value)
    requires SortedBy(s, key) && s != [] && !ValueLe(key(x), key(s[0]))
    requires multiset(t) == multiset(s[1..]) + multiset{x}
    ensures forall j :: 0 <= j < |t| ==> ValueLe(key(s[0]), key(t[j]))
  {
    ValueLeTotal(key(x), key(s[0]));
    forall j | 0 <= j < |t| ensures ValueLe(key(s[0]), key(t[j])) {
      assert t[j] in multiset(t);
      if t[j] != x {
        assert t[j] in multiset(s[1..]);
        var k :| 0 <= k < |s[1..]| && s[1..][k] == t[j];
        assert s[k + 1] == t[j];
      }
    }
  }

  /** Puts `x` before the first element it does not follow, so that `x` stays ahead of
      the elements that compare equal to it. */
  function Insert<H>(x: H, s: seq<H>, key: H -> Value): (r: seq<H>)
    requires SortedBy(s, key)
    ensures SortedBy(r, key)
    ensures multiset(r) == multiset(s) + multiset{x}
    decreases |s|
  {
    if s == [] then [x]
    else if ValueLe(key(x), key(s[0])) then
      BelowHead(x, s, key);
      [x] + s
    else
      var t := Insert(x, s[1..], key);
      AboveRest(x, s, t, key);
      assert s == [s[0]] + s[1..];
      [s[0]] + t
  }

  /** The ascending sort `$filter('orderBy')` performs; elements that compare equal
      keep their order. */
  function SortBy<H>(s: seq<H>, key: H -> Value): (r: seq<H>)
    ensures SortedBy(r, key)
    ensures multiset(r) == multiset(s)
    decreases |s|
  {
    if s == [] then []
    else
      assert s == [s[0]] + s[1..];
      Insert(s[0], SortBy(s[1..], key), key)
  }

  /** A list whose elements all compare equal comes out of the sort unchanged. */
  lemma {:induction false} SortByKeepsTies<H>(s: seq<H>, key: H -> Value)
    requires forall i, j :: 0 <= i < |s| && 0 <= j < |s| ==> ValueLe(key(s[i]), key(s[j]))
    ensures SortBy(s, key) == s
    decreases |s|
  {
    if s != [] {
      var t := s[1..];
      assert forall i, j :: 0 <= i < |t| && 0 <= j < |t| ==> ValueLe(key(t[i]), key(t[j])) by {
        forall i, j | 0 <= i < |t| && 0 <= j < |t| ensures ValueLe(key(t[i]), key(t[j])) {
          assert t[i] == s[i + 1] && t[j] == s[j + 1];
        }
      }
      SortByKeepsTies(t, key);
      assert s == [s[0]] + t;
      assert SortBy(s, key) == Insert(s[0], t, key);
      if t != [] {
        assert ValueLe(key(s[0]), key(t[0])) by { assert t[0] == s[1]; }
        assert Insert(s[0], t, key) == [s[0]] + t;
      }
    }
  }

  /** Inserting by two keys that agree on every element involved gives the same list. */
  lemma {:induction false} InsertCongruent<H>(x: H, s: seq<H>, k1: H -> Value, k2: H -> Value)
    requires SortedBy(s, k1) && SortedBy(s, k2)
    requires k1(x) == k2(x) && forall y :: y in s ==> k1(y) == k2(y)
    ensures Insert(x, s, k1) == Insert(x, s, k2)
    decreases |s|
  {
    if s != [] {
      assert s[0] in s;
      assert forall y :: y in s[1..] ==> y in s;
      InsertCongruent(x, s[1..], k1, k2);
    }
  }

  /** Sorting by two keys that agree on every element gives the same list. */
  lemma {:induction false} SortByCongruent<H>(s: seq<H>, k1: H -> Value, k2: H -> Value)
    requires forall y :: y in s ==> k1(y) == k2(y)
    ensures SortBy(s, k1) == SortBy(s, k2)
    decreases |s|
  {
    if s != [] {
      assert forall y :: y in s[1..] ==> y in s;
      SortByCongruent(s[1..], k1, k2);
      var t := SortBy(s[1..], k1);
      forall y | y in t ensures k1(y) == k2(y) {
        assert y in multiset(t);
        assert y in multiset(s[1..]);
      }
      assert s[0] in s;
      InsertCongruent(s[0], t, k1, k2);
    }
  }
}
