/** The array helpers of the StaMina plugin: `first`, `last`, `chunk`, `uniq`,
    `pluck` and `groupBy`. */
module StaArrays {
  import opened JsCore

  /** What `first` and `last` return: a single element (`undefined` on an
      empty array) when asked for exactly one, a slice otherwise. */
  datatype Taken<T> = One(item: Option<T>) | Many(items: seq<T>)

  /** `S.first(arr, n)`: `n === 1 ? arr[0] : arr.slice(0, n)`. */
  function First<T>(arr: seq<T>, n: int := 1): (r: Taken<T>)
    ensures n == 1 <==> r.One?
    ensures n == 1 ==> r.item == if arr == [] then None else Some(arr[0])
    ensures 0 <= n && n != 1 ==> r.items == arr[..if n <= |arr| then n else |arr|]
    ensures n < 0 ==> r.items == arr[..if |arr| + n >= 0 then |arr| + n else 0]
  {
    if n == 1 then One(if arr == [] then None else Some(arr[0])) else Many(Slice(arr, 0, n))
  }

  /** `S.last(arr, n)`: `n === 1 ? arr[arr.length - 1] : arr.slice(-n)`. Since
      `-0` is `0`, `last(arr, 0)` is the whole array, and a negative `n` drops
      the first `-n` elements. */
  function Last<T>(arr: seq<T>, n: int := 1): (r: Taken<T>)
    ensures n == 1 <==> r.One?
    ensures n == 1 ==> r.item == if arr == [] then None else Some(arr[|arr| - 1])
    ensures 1 < n ==> r.items == arr[if n <= |arr| then |arr| - n else 0..]
    ensures n == 0 ==> r.items == arr
    ensures n < 0 ==> r.items == arr[if -n <= |arr| then -n else |arr|..]
  {
    if n == 1 then One(if arr == [] then None else Some(arr[|arr| - 1])) else Many(Slice(arr, -n, |arr|))
  }

  /** Taking the first `k` and the last `|arr| - k` elements splits the array,
      except where either count is 1 (a single element comes back) or the
      second count is 0 (the whole array comes back). */
  lemma FirstLastSplit<T>(arr: seq<T>, k: nat)
    requires k <= |arr| && k != 1 && |arr| - k > 1
    ensures First(arr, k).items + Last(arr, |arr| - k).items == arr
  {
  }

  /** `Math.ceil(n / size)` for a positive size. */
  function CeilDiv(n: nat, size: nat): nat
    requires size > 0
  {
    (n + size - 1) / size
  }

  lemma CeilDivBounds(n: nat, size: nat)
    requires size > 0
    ensures CeilDiv(n, size) * size >= n
    ensures CeilDiv(n, size) > 0 ==> (CeilDiv(n, size) - 1) * size < n
    ensures n > 0 <==> CeilDiv(n, size) > 0
  {
    var q, r := (n + size - 1) / size, (n + size - 1) % size;
    assert n + size - 1 == q * size + r;
    assert (q - 1) * size == q * size - size;
  }

  /** `S.chunk(arr, size)`: `Array.from({length: Math.ceil(arr.length / size)},
      (_, i) => arr.slice(i * size, i * size + size))`. A size of 0 asks for an
      infinitely long array, which throws a RangeError unless `arr` is empty
      (then the length is NaN, read as 0); a negative size gives no chunks. */
  function Chunk<T>(arr: seq<T>, size: int): (r: Option<seq<seq<T>>>)
    ensures r.None? <==> size == 0 && arr != []
    ensures size <= 0 && r.Some? ==> r.value == []
  {
    if size > 0 then Some(seq(CeilDiv(|arr|, size), i => Slice(arr, i * size, i * size + size)))
    else if size == 0 && arr != [] then None
    else Some([])
  }

  function Flatten<T>(parts: seq<seq<T>>): seq<T>
  {
    if parts == [] then [] else parts[0] + Flatten(parts[1..])
  }

  /** For a positive size: `ceil(n / size)` chunks, each but the last of
      exactly `size` elements, the last non-empty and at most `size` long. */
  lemma ChunkShape<T>(arr: seq<T>, size: int)
    requires size >= 1
    ensures Chunk(arr, size).Some?
    ensures |Chunk(arr, size).value| == CeilDiv(|arr|, size)
    ensures forall i :: 0 <= i < |Chunk(arr, size).value| - 1 ==> |Chunk(arr, size).value[i]| == size
    ensures arr != [] ==> 0 < |Chunk(arr, size).value[|Chunk(arr, size).value| - 1]| <= size
  {
    var count := CeilDiv(|arr|, size);
    forall i: nat | i + 1 < count {
      ChunkFull(arr, size, i);
    }
    if arr != [] {
      CeilDivBounds(|arr|, size);
      ChunkAt(arr, size, count - 1);
    }
  }

  lemma ChunkFull<T>(arr: seq<T>, size: int, i: nat)
    requires size >= 1 && i + 1 < CeilDiv(|arr|, size)
    ensures |Chunk(arr, size).value[i]| == size
  {
    var count := CeilDiv(|arr|, size);
    CeilDivBounds(|arr|, size);
    MulLess(i + 1, count - 1, size);
    assert (i + 1) * size == i * size + size;
    ChunkAt(arr, size, i);
  }

  /** Chunk `i` is the slice `[i * size, min((i + 1) * size, n))`. */
  lemma ChunkAt<T>(arr: seq<T>, size: int, i: nat)
    requires size >= 1 && i < CeilDiv(|arr|, size)
    ensures i * size < |arr|
    ensures Chunk(arr, size).value[i] ==
              arr[i * size..if i * size + size <= |arr| then i * size + size else |arr|]
  {
    CeilDivBounds(|arr|, size);
    MulLess(i, CeilDiv(|arr|, size) - 1, size);
  }

  lemma MulLess(a: nat, b: nat, c: nat)
    requires a <= b
    ensures a * c <= b * c
  {
  }

  /** The chunks concatenate back to the input. */
  lemma ChunkFlatten<T>(arr: seq<T>, size: int)
    requires size >= 1
    ensures Flatten(Chunk(arr, size).value) == arr
  {
    var chunks := Chunk(arr, size).value;
    CeilDivBounds(|arr|, size);
    FlattenFrom(arr, size, 0);
    assert chunks[0..] == chunks;
  }

  lemma {:induction false} FlattenFrom<T>(arr: seq<T>, size: int, k: nat)
    requires size >= 1 && k <= CeilDiv(|arr|, size)
    ensures k * size <= |arr| || k == CeilDiv(|arr|, size)
    ensures Flatten(Chunk(arr, size).value[k..]) ==
              arr[if k * size <= |arr| then k * size else |arr|..]
    decreases CeilDiv(|arr|, size) - k
  {
    var count := CeilDiv(|arr|, size);
    var chunks := Chunk(arr, size).value;
    CeilDivBounds(|arr|, size);
    if k == count {
      assert chunks[k..] == [];
      MulLess(count, k, size);
    } else {
      var lo, hi := k * size, (k + 1) * size;
      MulSucc(k, size);
      assert hi == lo + size;
      var mid := if hi <= |arr| then hi else |arr|;
      ChunkAt(arr, size, k);
      assert chunks[k] == arr[lo..mid];
      FlattenFrom(arr, size, k + 1);
      assert Flatten(chunks[k + 1..]) == arr[mid..];
      FlattenStep(chunks, arr, k, lo, mid);
    }
  }

  /** One chunk in front of the flattened rest. */
  lemma FlattenStep<T>(chunks: seq<seq<T>>, arr: seq<T>, k: nat, lo: nat, mid: nat)
    requires k < |chunks| && lo <= mid <= |arr|
    requires chunks[k] == arr[lo..mid] && Flatten(chunks[k + 1..]) == arr[mid..]
    ensures Flatten(chunks[k..]) == arr[lo..]
  {
    assert chunks[k..][1..] == chunks[k + 1..];
    SuffixSplit(arr, lo, mid);
  }

  /** `[...new Set(arr)]`: each distinct element once, at the place of its
      first occurrence (a Set iterates in insertion order). */
  function Uniq<T(==,!new)>(arr: seq<T>): (r: seq<T>)
    ensures forall x :: x in r <==> x in arr
    ensures Distinct(r)
  {
    if arr == [] then []
    else
      var u := Uniq(arr[..|arr| - 1]);
      var x := arr[|arr| - 1];
      assert forall y :: y in arr <==> y in arr[..|arr| - 1] || y == x;
      if x in u then u else u + [x]
  }

  predicate Distinct<T(==,!new)>(s: seq<T>)
  {
    forall i, j :: 0 <= i < j < |s| ==> s[i] != s[j]
  }

  /** The position of the first occurrence of `x`. */
  function FirstIndex<T(==,!new)>(s: seq<T>, x: T): (k: nat)
    requires x in s
    ensures k < |s| && s[k] == x && x !in s[..k]
  {
    if s[0] == x then 0 else
      var k := 1 + FirstIndex(s[1..], x);
      assert s[..k] == [s[0]] + s[1..][..k - 1];
      k
  }

  lemma FirstIndexUnique<T(!new)>(s: seq<T>, x: T, k: nat)
    requires k < |s| && s[k] == x && x !in s[..k]
    ensures FirstIndex(s, x) == k
  {
  }

  /** `uniq` keeps elements in the order of their first occurrences. */
  lemma {:induction false} UniqOrder<T(!new)>(arr: seq<T>)
    ensures forall i, j :: 0 <= i < j < |Uniq(arr)| ==>
              FirstIndex(arr, Uniq(arr)[i]) < FirstIndex(arr, Uniq(arr)[j])
  {
    if arr != [] {
      var init := arr[..|arr| - 1];
      var u := Uniq(init);
      var x := arr[|arr| - 1];
      UniqOrder(init);
      forall y | y in init ensures FirstIndex(arr, y) == FirstIndex(init, y) {
        var k := FirstIndex(init, y);
        assert arr[..k] == init[..k];
        FirstIndexUnique(arr, y, k);
      }
      if x !in u {
        assert x !in init;
        assert arr[..|arr| - 1] == init;
        FirstIndexUnique(arr, x, |arr| - 1);
        var r := u + [x];
        assert forall k :: 0 <= k < |r| ==> r[k] in arr by {
          forall k | 0 <= k < |r| ensures r[k] in arr {
            if k < |u| {
              assert r[k] in init;
            }
          }
        }
        forall i, j | 0 <= i < j < |r|
          ensures FirstIndex(arr, r[i]) < FirstIndex(arr, r[j])
        {
          assert r[i] in u && r[i] in init;
          if j < |u| {
            assert r[j] in init;
          }
        }
      } else {
        assert forall k :: 0 <= k < |u| ==> u[k] in init;
        forall i, j | 0 <= i < j < |u|
          ensures FirstIndex(arr, u[i]) < FirstIndex(arr, u[j])
        {
          assert u[i] in init && u[j] in init;
        }
      }
    }
  }

  /** `S.pluck(arr, key)`: `arr.map(item => item[key])`. */
  function Pluck(arr: seq<Obj>, key: string): (r: seq<Value>)
    ensures |r| == |arr|
    ensures forall i :: 0 <= i < |arr| ==> r[i] == Get(arr[i], key)
  {
    if arr == [] then [] else [Get(arr[0], key)] + Pluck(arr[1..], key)
  }

  /** The property name that `acc[obj[key]]` uses: the value converted to a string. */
  function GroupName(item: Obj, key: string): string
  {
    Stringify(Get(item, key))
  }

  /** The items of `arr` whose group is `g`, in input order. */
  function Members(arr: seq<Obj>, key: string, g: string): seq<Obj>
  {
    if arr == [] then []
    else Members(arr[..|arr| - 1], key, g)
         + (if GroupName(arr[|arr| - 1], key) == g then [arr[|arr| - 1]] else [])
  }

  lemma {:induction false} MembersIn(arr: seq<Obj>, key: string, g: string, x: Obj)
    ensures x in Members(arr, key, g) <==> x in arr && GroupName(x, key) == g
  {
    if arr != [] {
      MembersIn(arr[..|arr| - 1], key, g, x);
      assert arr == arr[..|arr| - 1] + [arr[|arr| - 1]];
    }
  }

  lemma MembersStep(arr: seq<Obj>, key: string, n: nat)
    requires n < |arr|
    ensures forall g :: Members(arr[..n + 1], key, g) ==
              Members(arr[..n], key, g) + (if GroupName(arr[n], key) == g then [arr[n]] else [])
  {
    assert arr[..n + 1][..n] == arr[..n];
  }

  /** `S.groupBy(arr, key)`: a reduction that pushes every item onto the array
      stored under its group name, creating the array on first use. A group
      exists exactly for the names some item has, and holds those items in
      input order. */
  method GroupBy(arr: seq<Obj>, key: string) returns (groups: map<string, seq<Obj>>)
    ensures forall g :: g in groups <==> Members(arr, key, g) != []
    ensures forall g :: g in groups ==> groups[g] == Members(arr, key, g)
  {
    groups := map[];
    for n := 0 to |arr|
      invariant forall g :: g in groups <==> Members(arr[..n], key, g) != []
      invariant forall g :: g in groups ==> groups[g] == Members(arr[..n], key, g)
    {
      var item := arr[n];
      var g := GroupName(item, key);
      var group := if g in groups then groups[g] else [];
      MembersStep(arr, key, n);
      groups := groups[g := group + [item]];
    }
    assert arr[..|arr|] == arr;
  }

  /** Every item lands in the group of its own name and in no other. */
  lemma GroupByPartition(arr: seq<Obj>, key: string, groups: map<string, seq<Obj>>, x: Obj, g: string)
    requires forall g :: g in groups <==> Members(arr, key, g) != []
    requires forall g :: g in groups ==> groups[g] == Members(arr, key, g)
    requires x in arr
    ensures GroupName(x, key) in groups && x in groups[GroupName(x, key)]
    ensures g in groups && x in groups[g] ==> g == GroupName(x, key)
  {
    MembersIn(arr, key, GroupName(x, key), x);
    MembersIn(arr, key, g, x);
  }
}
