/** The two generic slice operations every sorted list of the source is built with:
    `slices.BinarySearchFunc` and `slices.Insert`. */
module Search {

  /** slices.Insert(s, i, x): x placed before s[i]. */
  function Insert<T>(s: seq<T>, i: nat, x: T): (r: seq<T>)
    requires i <= |s|
    ensures |r| == |s| + 1 && r[i] == x
    ensures forall j :: 0 <= j < i ==> r[j] == s[j]
    ensures forall j :: i < j < |r| ==> r[j] == s[j - 1]
    ensures multiset(r) == multiset(s) + multiset{x}
  {
    assert s == s[..i] + s[i..];
    s[..i] + [x] + s[i..]
  }

  /** slices.BinarySearchFunc: the position where `target` is or would be inserted, that is
      the first index whose element compares at or above `target`, and whether that
      element compares equal. The caller must hand in a list that is sorted for `cmp`:
      once an element compares at or above `target`, so do all later ones. */
  method BinarySearch<T, K>(s: seq<T>, target: K, cmp: (T, K) -> int) returns (i: nat, found: bool)
    requires forall j, k :: 0 <= j < k < |s| && cmp(s[j], target) >= 0 ==> cmp(s[k], target) >= 0
    ensures i <= |s|
    ensures forall j :: 0 <= j < i ==> cmp(s[j], target) < 0
    ensures forall j :: i <= j < |s| ==> cmp(s[j], target) >= 0
    ensures found <==> i < |s| && cmp(s[i], target) == 0
  {
    var lo, hi := 0, |s|;
    while lo < hi
      invariant 0 <= lo <= hi <= |s|
      invariant forall j :: 0 <= j < lo ==> cmp(s[j], target) < 0
      invariant forall j :: hi <= j < |s| ==> cmp(s[j], target) >= 0
    {
      var mid := lo + (hi - lo) / 2;
      if cmp(s[mid], target) < 0 {
        lo := mid + 1;
      } else {
        hi := mid;
      }
    }
    i := lo;
    found := i < |s| && cmp(s[i], target) == 0;
  }
}
