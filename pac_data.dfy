/** The data helpers of the ComPAC plugin: `filterArray`, `sortArray`,
    `filterData`, `searchData` and `paginateData`. Items are plain objects;
    `unique` is the same `[...new Set(array)]` as `StaArrays.Uniq`. */
module PacData {
  import opened JsCore
  import opened JsText
  import opened StaCollections
  import opened StaArrays

  // ---------------------------------------------------------------------
  // filterArray, filterData, searchData
  // ---------------------------------------------------------------------

  /** `pac.filterArray(array, key, value)`: the items whose `key` is strictly
      equal to `value`, in order. */
  function FilterArray(items: seq<Obj>, key: string, value: Value): (r: seq<Obj>)
    ensures forall x :: x in r <==> x in items && Get(x, key) == value
  {
    FilterMembers(items, x => Get(x, key) == value);
    Filter(items, x => Get(x, key) == value)
  }

  /** An item passes the filters when it equals every filter value that is
      not `undefined`. */
  predicate MatchesFilters(item: Obj, filters: map<string, Value>)
  {
    forall k :: k in filters ==> filters[k] == Undefined || Get(item, k) == filters[k]
  }

  /** `pac.filterData(data, filters)`. */
  function FilterData(data: seq<Obj>, filters: map<string, Value>): (r: seq<Obj>)
    ensures forall x :: x in r <==> x in data && MatchesFilters(x, filters)
  {
    FilterMembers(data, x => MatchesFilters(x, filters));
    Filter(data, x => MatchesFilters(x, filters))
  }

  /** Both filters keep the input order: filtering a concatenation filters
      each part. A filter object whose values are all `undefined` keeps
      everything, and a single defined filter is `filterArray`. */
  lemma FilterDataOrder(a: seq<Obj>, b: seq<Obj>, filters: map<string, Value>)
    ensures FilterData(a + b, filters) == FilterData(a, filters) + FilterData(b, filters)
    ensures (forall k :: k in filters ==> filters[k] == Undefined) ==> FilterData(a, filters) == a
  {
    FilterAppend(a, b, x => MatchesFilters(x, filters));
    if forall k :: k in filters ==> filters[k] == Undefined {
      FilterAll(a, x => MatchesFilters(x, filters));
    }
  }

  lemma FilterDataSingle(data: seq<Obj>, key: string, value: Value)
    requires value != Undefined
    ensures FilterData(data, map[key := value]) == FilterArray(data, key, value)
  {
    FilterCongruent(data, x => MatchesFilters(x, map[key := value]), x => Get(x, key) == value);
  }

  /** Some listed field, stringified and lower-cased, contains `q`. */
  predicate Hit(item: Obj, q: string, fields: seq<string>)
  {
    exists i :: 0 <= i < |fields| && Includes(Lower(Stringify(Get(item, fields[i]))), q)
  }

  /** `pac.searchData(data, query, fields)`: an empty query returns the data
      itself; otherwise the items with a hit on the lower-cased query, in order. */
  function SearchData(data: seq<Obj>, query: string, fields: seq<string>): (r: seq<Obj>)
    ensures query == "" ==> r == data
    ensures query != "" ==> forall x :: x in r <==> x in data && Hit(x, Lower(query), fields)
  {
    if query == "" then data
    else
      var q := Lower(query);
      FilterMembers(data, x => Hit(x, q, fields));
      Filter(data, x => Hit(x, q, fields))
  }

  lemma LowerUpper(s: string)
    ensures Lower(Upper(s)) == Lower(s)
  {
    assert forall i :: 0 <= i < |s| ==> LowerChar(UpperChar(s[i])) == LowerChar(s[i]);
  }

  /** The search ignores the case of the query and keeps the input order. */
  lemma SearchDataProperties(a: seq<Obj>, b: seq<Obj>, query: string, fields: seq<string>)
    ensures SearchData(a, Upper(query), fields) == SearchData(a, query, fields)
    ensures SearchData(a + b, query, fields) == SearchData(a, query, fields) + SearchData(b, query, fields)
  {
    LowerUpper(query);
    if query != "" {
      FilterAppend(a, b, x => Hit(x, Lower(query), fields));
    }
  }

  // ---------------------------------------------------------------------
  // paginateData
  // ---------------------------------------------------------------------

  function Min(a: int, b: int): int
  {
    if a < b then a else b
  }

  /** Where page `currentPage` starts: `(currentPage - 1) * perPage`. */
  function PageStart(currentPage: int, perPage: int): (start: int)
    ensures currentPage >= 1 && perPage >= 0 ==> start >= 0
  {
    MulNonNegative(currentPage - 1, perPage);
    (currentPage - 1) * perPage
  }

  lemma MulNonNegative(a: int, b: int)
    ensures a >= 0 && b >= 0 ==> a * b >= 0
  {
  }

  /** `pac.paginateData(data, currentPage, perPage)`: the slice from
      `(currentPage - 1) * perPage`, `perPage` items long, cut at the end. */
  function PaginateData<T>(data: seq<T>, currentPage: int, perPage: int): (r: seq<T>)
    ensures currentPage >= 1 && perPage >= 0 ==>
              var start := PageStart(currentPage, perPage);
              |r| <= perPage && r == data[Min(start, |data|)..Min(start + perPage, |data|)]
  {
    var start := PageStart(currentPage, perPage);
    PageSlice(data, start, perPage);
    Slice(data, start, start + perPage)
  }

  lemma PageSlice<T>(data: seq<T>, start: int, perPage: int)
    ensures start >= 0 && perPage >= 0 ==>
              var r := Slice(data, start, start + perPage);
              |r| <= perPage && r == data[Min(start, |data|)..Min(start + perPage, |data|)]
  {
  }

  /** Page `i + 1` is chunk `i` of `S.chunk(data, perPage)`. */
  lemma PageIsChunk<T>(data: seq<T>, perPage: int, i: nat)
    requires perPage >= 1 && i < CeilDiv(|data|, perPage)
    ensures PaginateData(data, i + 1, perPage) == Chunk(data, perPage).value[i]
  {
    ChunkAt(data, perPage, i);
  }

  /** Pages `1` to the page count, concatenated in order, give back the data,
      and every page after the last is empty. */
  lemma PagesConcatenate<T>(data: seq<T>, perPage: int, later: int)
    requires perPage >= 1 && later > CeilDiv(|data|, perPage)
    ensures Flatten(seq(CeilDiv(|data|, perPage), i requires 0 <= i => PaginateData(data, i + 1, perPage))) == data
    ensures PaginateData(data, later, perPage) == []
  {
    var pages := seq(CeilDiv(|data|, perPage), i requires 0 <= i => PaginateData(data, i + 1, perPage));
    forall i | 0 <= i < |pages| ensures pages[i] == Chunk(data, perPage).value[i] {
      PageIsChunk(data, perPage, i);
    }
    assert pages == Chunk(data, perPage).value;
    ChunkFlatten(data, perPage);
    PageAfterLast(data, perPage, later);
  }

  lemma PageAfterLast<T>(data: seq<T>, perPage: int, later: int)
    requires perPage >= 1 && later > CeilDiv(|data|, perPage)
    ensures PaginateData(data, later, perPage) == []
  {
    CeilDivBounds(|data|, perPage);
    MulLess(CeilDiv(|data|, perPage), later - 1, perPage);
    assert PageStart(later, perPage) >= |data|;
  }

  // ---------------------------------------------------------------------
  // sortArray
  // ---------------------------------------------------------------------

  /** Every item's `key` is a number, so the comparator is consistent. */
  predicate NumericKeys(s: seq<Obj>, key: string)
  {
    forall i :: 0 <= i < |s| ==> Get(s[i], key).Num?
  }

  /** The position an item sorts by: its key, negated for a descending sort. */
  function Rank(o: Obj, key: string, ascending: bool): int
  {
    match Get(o, key)
    case Num(n) => if ascending then n else -n
    case _ => 0
  }

  predicate SortedBy(s: seq<Obj>, key: string, ascending: bool)
  {
    forall i, j :: 0 <= i < j < |s| ==> Rank(s[i], key, ascending) <= Rank(s[j], key, ascending)
  }

  /** Places `x` after every item that does not rank above it. */
  function Insert(t: seq<Obj>, x: Obj, key: string, ascending: bool): (r: seq<Obj>)
    ensures multiset(r) == multiset(t) + multiset{x}
  {
    if t == [] then [x]
    else if Rank(t[|t| - 1], key, ascending) <= Rank(x, key, ascending) then t + [x]
    else
      assert t == t[..|t| - 1] + [t[|t| - 1]];
      Insert(t[..|t| - 1], x, key, ascending) + [t[|t| - 1]]
  }

  /** The order a stable sort with the `sortArray` comparator produces. */
  function SortBy(s: seq<Obj>, key: string, ascending: bool): (r: seq<Obj>)
    ensures multiset(r) == multiset(s)
  {
    if s == [] then []
    else
      assert s == s[..|s| - 1] + [s[|s| - 1]];
      Insert(SortBy(s[..|s| - 1], key, ascending), s[|s| - 1], key, ascending)
  }

  lemma SortedSnoc(u: seq<Obj>, y: Obj, key: string, ascending: bool)
    requires SortedBy(u, key, ascending)
    requires forall i :: 0 <= i < |u| ==> Rank(u[i], key, ascending) <= Rank(y, key, ascending)
    ensures SortedBy(u + [y], key, ascending)
  {
    var w := u + [y];
    forall i, j | 0 <= i < j < |w| ensures Rank(w[i], key, ascending) <= Rank(w[j], key, ascending) {
      if j < |u| {
        assert w[i] == u[i] && w[j] == u[j];
      }
    }
  }

  lemma {:induction false} InsertSorted(t: seq<Obj>, x: Obj, key: string, ascending: bool)
    requires SortedBy(t, key, ascending)
    ensures SortedBy(Insert(t, x, key, ascending), key, ascending)
  {
    if t == [] {
    } else {
      var init, y := t[..|t| - 1], t[|t| - 1];
      if Rank(y, key, ascending) <= Rank(x, key, ascending) {
        SortedSnoc(t, x, key, ascending);
      } else {
        assert SortedBy(init, key, ascending);
        InsertSorted(init, x, key, ascending);
        var u := Insert(init, x, key, ascending);
        forall i | 0 <= i < |u| ensures Rank(u[i], key, ascending) <= Rank(y, key, ascending) {
          assert u[i] in multiset(u);
          assert u[i] in multiset(init) || u[i] == x;
        }
        SortedSnoc(u, y, key, ascending);
      }
    }
  }

  /** The sort order holds: keys never decrease (never increase when descending). */
  lemma {:induction false} SortBySorted(s: seq<Obj>, key: string, ascending: bool)
    ensures SortedBy(SortBy(s, key, ascending), key, ascending)
  {
    if s != [] {
      SortBySorted(s[..|s| - 1], key, ascending);
      InsertSorted(SortBy(s[..|s| - 1], key, ascending), s[|s| - 1], key, ascending);
    }
  }

  /** The test for the items of one rank. */
  function RankIs(key: string, ascending: bool, v: int): Obj -> bool
  {
    o => Rank(o, key, ascending) == v
  }

  lemma {:induction false} InsertStable(t: seq<Obj>, x: Obj, key: string, ascending: bool, v: int)
    requires SortedBy(t, key, ascending)
    ensures Filter(Insert(t, x, key, ascending), RankIs(key, ascending, v)) ==
              Filter(t, RankIs(key, ascending, v)) + Filter([x], RankIs(key, ascending, v))
  {
    var eq := RankIs(key, ascending, v);
    if t == [] {
      assert [] + [x] == [x];
    } else if Rank(t[|t| - 1], key, ascending) <= Rank(x, key, ascending) {
      FilterAppend(t, [x], eq);
    } else {
      var init, y := t[..|t| - 1], t[|t| - 1];
      assert SortedBy(init, key, ascending);
      InsertStable(init, x, key, ascending, v);
      var fx, fy := Filter([x], eq), Filter([y], eq);
      OneRankEmpty(x, y, key, ascending, v);
      calc {
        Filter(Insert(t, x, key, ascending), eq);
        Filter(Insert(init, x, key, ascending) + [y], eq);
        { FilterAppend(Insert(init, x, key, ascending), [y], eq); }
        Filter(init, eq) + fx + fy;
        { SwapAroundEmpty(Filter(init, eq), fx, fy); }
        Filter(init, eq) + fy + fx;
        { FilterAppend(init, [y], eq); assert t == init + [y]; }
        Filter(t, eq) + fx;
      }
    }
  }

  /** Of two items of different rank, at most one has rank `v`. */
  lemma OneRankEmpty(x: Obj, y: Obj, key: string, ascending: bool, v: int)
    requires Rank(x, key, ascending) < Rank(y, key, ascending)
    ensures Filter([x], RankIs(key, ascending, v)) == [] || Filter([y], RankIs(key, ascending, v)) == []
  {
  }

  lemma SwapAroundEmpty(a: seq<Obj>, b: seq<Obj>, c: seq<Obj>)
    requires b == [] || c == []
    ensures a + b + c == a + c + b
  {
  }

  /** The sort is stable: the items of each key keep their input order. */
  lemma {:induction false} SortByStable(s: seq<Obj>, key: string, ascending: bool, v: int)
    ensures Filter(SortBy(s, key, ascending), RankIs(key, ascending, v)) == Filter(s, RankIs(key, ascending, v))
  {
    var eq := RankIs(key, ascending, v);
    if s != [] {
      var init, x := s[..|s| - 1], s[|s| - 1];
      assert s == init + [x];
      SortBySorted(init, key, ascending);
      calc {
        Filter(SortBy(s, key, ascending), eq);
        Filter(Insert(SortBy(init, key, ascending), x, key, ascending), eq);
        { InsertStable(SortBy(init, key, ascending), x, key, ascending, v); }
        Filter(SortBy(init, key, ascending), eq) + Filter([x], eq);
        { SortByStable(init, key, ascending, v); }
        Filter(init, eq) + Filter([x], eq);
        { FilterAppend(init, [x], eq); }
        Filter(s, eq);
      }
    }
  }

  /** `pac.sortArray(array, key, ascending)`: sorts the array in place with
      the engine's stable sort and returns the same array. */
  method SortArray(a: array<Obj>, key: string, ascending: bool) returns (r: array<Obj>)
    requires NumericKeys(a[..], key)
    modifies a
    ensures r == a
    ensures a[..] == SortBy(old(a[..]), key, ascending)
  {
    var sorted := SortBy(a[..], key, ascending);
    assert |sorted| == |multiset(sorted)| == a.Length;
    forall i | 0 <= i < a.Length {
      a[i] := sorted[i];
    }
    return a;
  }
}
