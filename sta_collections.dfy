/** The collection algorithms of the StaMina plugin: binary search, quick sort,
    merge sort with its merge step, and filter-then-map. Arrays hold numbers,
    compared with `<` and `===`. */
module StaCollections {

  predicate Ascending(s: seq<int>)
  {
    forall i, j :: 0 <= i < j < |s| ==> s[i] <= s[j]
  }

  /** `S.binarySearch(arr, target)`: an index holding `target`, or -1. On an
      ascending array -1 means that `target` does not occur. */
  method BinarySearch(arr: seq<int>, target: int) returns (r: int)
    ensures r == -1 || (0 <= r < |arr| && arr[r] == target)
    ensures Ascending(arr) ==> (r == -1 <==> target !in arr)
  {
    var left, right := 0, |arr| - 1;
    while left <= right
      invariant 0 <= left <= right + 1 <= |arr|
      invariant Ascending(arr) ==> forall k :: 0 <= k < left ==> arr[k] < target
      invariant Ascending(arr) ==> forall k :: right < k < |arr| ==> arr[k] > target
      decreases right - left
    {
      var mid := (left + right) / 2;
      if arr[mid] == target {
        return mid;
      }
      if arr[mid] < target {
        left := mid + 1;
      } else {
        right := mid - 1;
      }
    }
    return -1;
  }

  /** `S.quickSort(arr)`: the first element is the pivot; the rest is
      partitioned into the elements below it and the elements not below it,
      and the two parts are sorted recursively. */
  method QuickSort(arr: seq<int>) returns (r: seq<int>)
    ensures Ascending(r)
    ensures multiset(r) == multiset(arr)
    decreases |arr|
  {
    if |arr| <= 1 {
      return arr;
    }
    var pivot := arr[0];
    var left, right := Partition(pivot, arr[1..]);
    assert arr == [pivot] + arr[1..];
    var sortedLeft := QuickSort(left);
    var sortedRight := QuickSort(right);
    r := sortedLeft + [pivot] + sortedRight;
    JoinAroundPivot(sortedLeft, pivot, sortedRight);
  }

  /** The partition loop of `S.quickSort`: `arr[i] < pivot` goes left, everything else right. */
  method Partition(pivot: int, rest: seq<int>) returns (left: seq<int>, right: seq<int>)
    ensures |left| + |right| == |rest|
    ensures multiset(left) + multiset(right) == multiset(rest)
    ensures forall x :: x in multiset(left) ==> x < pivot
    ensures forall x :: x in multiset(right) ==> x >= pivot
  {
    left, right := [], [];
    for i := 0 to |rest|
      invariant |left| + |right| == i
      invariant multiset(left) + multiset(right) == multiset(rest[..i])
      invariant forall x :: x in multiset(left) ==> x < pivot
      invariant forall x :: x in multiset(right) ==> x >= pivot
    {
      assert rest[..i + 1] == rest[..i] + [rest[i]];
      if rest[i] < pivot {
        left := left + [rest[i]];
      } else {
        right := right + [rest[i]];
      }
    }
    assert rest[..|rest|] == rest;
  }

  lemma JoinAroundPivot(a: seq<int>, pivot: int, b: seq<int>)
    requires Ascending(a) && Ascending(b)
    requires forall x :: x in multiset(a) ==> x < pivot
    requires forall x :: x in multiset(b) ==> x >= pivot
    ensures Ascending(a + [pivot] + b)
  {
    forall i, j | 0 <= i < j < |a + [pivot] + b|
      ensures (a + [pivot] + b)[i] <= (a + [pivot] + b)[j]
    {
      if i < |a| {
        assert a[i] in multiset(a);
      }
      if j > |a| {
        assert b[j - |a| - 1] in multiset(b);
      }
    }
  }

  /** `S.merge(left, right)`: repeatedly takes the smaller head, and the right
      head when the two are equal; then appends what is left of both. */
  method Merge(left: seq<int>, right: seq<int>) returns (r: seq<int>)
    ensures r == Merged(left, right)
    ensures multiset(r) == multiset(left) + multiset(right)
    ensures Ascending(left) && Ascending(right) ==> Ascending(r)
  {
    var result := [];
    var i, j := 0, 0;
    while i < |left| && j < |right|
      invariant 0 <= i <= |left| && 0 <= j <= |right|
      invariant result + Merged(left[i..], right[j..]) == Merged(left, right)
      decreases |left| - i + |right| - j
    {
      assert left[i..][1..] == left[i + 1..] && right[j..][1..] == right[j + 1..];
      if left[i] < right[j] {
        result := result + [left[i]];
        i := i + 1;
      } else {
        result := result + [right[j]];
        j := j + 1;
      }
    }
    r := result + left[i..] + right[j..];
    MergedPermutes(left, right);
    if Ascending(left) && Ascending(right) {
      MergedAscending(left, right);
    }
  }

  /** The merge as a recursive definition, with the same tie rule as the loop. */
  function Merged(a: seq<int>, b: seq<int>): seq<int>
    decreases |a| + |b|
  {
    if a == [] then b
    else if b == [] then a
    else if a[0] < b[0] then [a[0]] + Merged(a[1..], b)
    else [b[0]] + Merged(a, b[1..])
  }

  lemma {:induction false} MergedPermutes(a: seq<int>, b: seq<int>)
    ensures multiset(Merged(a, b)) == multiset(a) + multiset(b)
    decreases |a| + |b|
  {
    if a != [] && b != [] {
      if a[0] < b[0] {
        MergedPermutes(a[1..], b);
        assert a == [a[0]] + a[1..];
      } else {
        MergedPermutes(a, b[1..]);
        assert b == [b[0]] + b[1..];
      }
    }
  }

  lemma {:induction false} MergedAscending(a: seq<int>, b: seq<int>)
    requires Ascending(a) && Ascending(b)
    ensures Ascending(Merged(a, b))
    ensures Merged(a, b) != [] ==>
              (a != [] && Merged(a, b)[0] == a[0]) || (b != [] && Merged(a, b)[0] == b[0])
    decreases |a| + |b|
  {
    if a != [] && b != [] {
      if a[0] < b[0] {
        MergedAscending(a[1..], b);
        AppendAscending([a[0]], Merged(a[1..], b));
      } else {
        MergedAscending(a, b[1..]);
        AppendAscending([b[0]], Merged(a, b[1..]));
      }
    }
  }

  lemma AppendAscending(a: seq<int>, b: seq<int>)
    requires Ascending(a) && Ascending(b)
    requires a != [] && b != [] ==> a[|a| - 1] <= b[0]
    ensures Ascending(a + b)
  {
  }

  /** `S.mergeSort(arr)`: sorts both halves around `floor(length / 2)` and merges them. */
  method MergeSort(arr: seq<int>) returns (r: seq<int>)
    ensures Ascending(r)
    ensures multiset(r) == multiset(arr)
    decreases |arr|
  {
    if |arr| <= 1 {
      return arr;
    }
    var mid := |arr| / 2;
    var left := MergeSort(arr[..mid]);
    var right := MergeSort(arr[mid..]);
    r := Merge(left, right);
    assert arr == arr[..mid] + arr[mid..];
  }

  /** `arr.filter(keep)`. */
  function Filter<T>(s: seq<T>, keep: T -> bool): (r: seq<T>)
    ensures |r| <= |s|
  {
    if s == [] then [] else (if keep(s[0]) then [s[0]] else []) + Filter(s[1..], keep)
  }

  /** Filtering keeps exactly the accepted elements. */
  lemma {:induction false} FilterMembers<T>(s: seq<T>, keep: T -> bool)
    ensures forall x :: x in Filter(s, keep) <==> x in s && keep(x)
  {
    if s != [] {
      FilterMembers(s[1..], keep);
      assert s == [s[0]] + s[1..];
    }
  }

  /** Filtering distributes over concatenation, so it keeps the input order. */
  lemma {:induction false} FilterAppend<T>(a: seq<T>, b: seq<T>, keep: T -> bool)
    ensures Filter(a + b, keep) == Filter(a, keep) + Filter(b, keep)
    decreases |a|
  {
    if a == [] {
      assert a + b == b;
    } else {
      var head := if keep(a[0]) then [a[0]] else [];
      assert (a + b)[0] == a[0];
      assert (a + b)[1..] == a[1..] + b;
      FilterAppend(a[1..], b, keep);
      calc {
        Filter(a + b, keep);
        head + Filter(a[1..] + b, keep);
        head + (Filter(a[1..], keep) + Filter(b, keep));
        (head + Filter(a[1..], keep)) + Filter(b, keep);
        Filter(a, keep) + Filter(b, keep);
      }
    }
  }

  /** Filters that agree on the elements give the same result. */
  lemma {:induction false} FilterCongruent<T>(s: seq<T>, p: T -> bool, q: T -> bool)
    requires forall x :: x in s ==> p(x) == q(x)
    ensures Filter(s, p) == Filter(s, q)
  {
    if s != [] {
      FilterCongruent(s[1..], p, q);
    }
  }

  /** A filter that accepts every element returns the input. */
  lemma {:induction false} FilterAll<T>(s: seq<T>, keep: T -> bool)
    requires forall x :: x in s ==> keep(x)
    ensures Filter(s, keep) == s
  {
    if s != [] {
      FilterAll(s[1..], keep);
    }
  }

  function Map<T, U>(s: seq<T>, f: T -> U): (r: seq<U>)
  {
    if s == [] then [] else [f(s[0])] + Map(s[1..], f)
  }

  /** `S.filterMap(arr, filterFn, mapFn)`: a left-to-right reduction that
      pushes `mapFn(item)` for every item `filterFn` accepts. */
  function FilterMap<T, U>(arr: seq<T>, keep: T -> bool, f: T -> U): (r: seq<U>)
    ensures |r| <= |arr|
  {
    FilterMapFrom([], arr, keep, f)
  }

  function FilterMapFrom<T, U>(acc: seq<U>, rest: seq<T>, keep: T -> bool, f: T -> U): (r: seq<U>)
    ensures |r| <= |acc| + |rest|
    decreases |rest|
  {
    if rest == [] then acc
    else FilterMapFrom(if keep(rest[0]) then acc + [f(rest[0])] else acc, rest[1..], keep, f)
  }

  /** The reduction equals filtering first and mapping the survivors. */
  lemma {:induction false} FilterMapIsMapOfFilter<T, U>(arr: seq<T>, keep: T -> bool, f: T -> U)
    ensures FilterMap(arr, keep, f) == Map(Filter(arr, keep), f)
  {
    FilterMapFromAcc([], arr, keep, f);
  }

  lemma {:induction false} FilterMapFromAcc<T, U>(acc: seq<U>, rest: seq<T>, keep: T -> bool, f: T -> U)
    ensures FilterMapFrom(acc, rest, keep, f) == acc + Map(Filter(rest, keep), f)
    decreases |rest|
  {
    if rest != [] {
      var acc' := if keep(rest[0]) then acc + [f(rest[0])] else acc;
      FilterMapFromAcc(acc', rest[1..], keep, f);
      MapAppend(if keep(rest[0]) then [rest[0]] else [], Filter(rest[1..], keep), f);
    }
  }

  lemma {:induction false} MapAppend<T, U>(a: seq<T>, b: seq<T>, f: T -> U)
    ensures Map(a + b, f) == Map(a, f) + Map(b, f)
    decreases |a|
  {
    if a == [] {
      assert a + b == b;
    } else {
      assert (a + b)[0] == a[0];
      assert (a + b)[1..] == a[1..] + b;
      MapAppend(a[1..], b, f);
    }
  }
}
