/**
 * music/DAA/all.c, section "binary_search": iterative binary search over a sorted
 * `int` array, returning an index holding the key or -1.
 */
module BinarySearch {

  ghost predicate Sorted(s: seq<int>) {
    forall i, j :: 0 <= i < j < |s| ==> s[i] <= s[j]
  }

  /**
   * `binary_search(arr, n, key)` with n = arr.Length. The midpoint `lo + (hi - lo) / 2`
   * always lies in [lo, hi], and `hi - lo` is never negative there, so C's truncating
   * division agrees with Dafny's.
   */
  method Search(arr: array<int>, key: int) returns (idx: int)
    requires Sorted(arr[..])
    ensures -1 <= idx < arr.Length
    ensures idx >= 0 ==> arr[idx] == key
    ensures idx == -1 <==> key !in arr[..]
  {
    var lo, hi := 0, arr.Length - 1;
    while lo <= hi
      invariant 0 <= lo <= hi + 1 <= arr.Length
      invariant forall k :: 0 <= k < lo ==> arr[k] < key
      invariant forall k :: hi < k < arr.Length ==> arr[k] > key
      decreases hi - lo
    {
      var mid := lo + (hi - lo) / 2;
      assert lo <= mid <= hi;
      if arr[mid] == key {
        return mid;
      } else if arr[mid] < key {
        lo := mid + 1;
      } else {
        hi := mid - 1;
      }
    }
    return -1;
  }

  /** The section's `main`: 7 is found at index 3 of {1,3,5,7,9,11,13,17}. */
  method Example() returns (idx: int)
    ensures idx == 3
  {
    var arr := new int[8];
    arr[0], arr[1], arr[2], arr[3], arr[4], arr[5], arr[6], arr[7] := 1, 3, 5, 7, 9, 11, 13, 17;
    assert arr[..] == [1, 3, 5, 7, 9, 11, 13, 17];
    idx := Search(arr, 7);
  }
}
