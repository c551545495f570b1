/** The read-only accessors `slice` (lines 262-264), `at` (189-191) and `last` (185-187)
    over the array. */
module StoreAccess {
  import opened Values
  import opened StoreSpec

  /** `slice()` with no bounds copies the whole array. */
  lemma SliceWhole<H>(s: seq<H>)
    ensures SliceOf(s, None, None) == s
  {
  }

  /** Cutting a slice at an inner bound gives two slices that join back up. */
  lemma SliceSplit<H>(s: seq<H>, a: nat, b: nat, c: nat)
    requires a <= b <= c <= |s|
    ensures SliceOf(s, Some(a), Some(b)) + SliceOf(s, Some(b), Some(c)) == SliceOf(s, Some(a), Some(c))
  {
    assert s[a..b] + s[b..c] == s[a..c];
  }

  /** A negative `begin` counts back from the end: `slice(-k)` is the last `k` records. */
  lemma SliceFromEnd<H>(s: seq<H>, k: int)
    requires 0 < k <= |s|
    ensures SliceOf(s, Some(-k), None) == s[|s| - k..]
  {
  }

  /** An `end` past the array is the array's end. */
  lemma SliceClamped<H>(s: seq<H>, a: Option<int>, e: int)
    requires e >= |s|
    ensures SliceOf(s, a, Some(e)) == SliceOf(s, a, None)
  {
  }

  /** A slice is the run of records that starts at the clamped `begin`. */
  lemma SliceContiguous<H>(s: seq<H>, a: Option<int>, e: Option<int>)
    ensures var r := SliceOf(s, a, e);
      var b := SliceBound(a, 0, |s|);
      b + |r| <= |s| && r == s[b..b + |r|]
  {
  }

  /** `at(i)` inside the array is the one-record slice at `i`. */
  lemma AtIsSlice<H>(s: seq<H>, i: nat)
    requires i < |s|
    ensures SliceOf(s, Some(i), Some(i + 1)) == [s[i]]
  {
  }

  /** Plucking from a concatenation plucks from each part. */
  lemma {:induction false} PluckAppend<H>(st: Store<H>, s: seq<H>, t: seq<H>, key: string)
    ensures PluckOf(st, s + t, key) == PluckOf(st, s, key) + PluckOf(st, t, key)
  {
    var l := PluckOf(st, s + t, key);
    var r := PluckOf(st, s, key) + PluckOf(st, t, key);
    forall i | 0 <= i < |s + t| ensures l[i] == r[i] {
      if i < |s| {
        assert (s + t)[i] == s[i];
      } else {
        assert (s + t)[i] == t[i - |s|];
      }
    }
  }
}
