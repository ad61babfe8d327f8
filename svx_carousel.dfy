/** The slide logic of `pub.carousel`: an opacity per slide and the index of
    the slide on show. `next` and `prev` are modelled from an index in
    `[0, n)`, where JavaScript's truncating `%` agrees with Dafny's; `goTo`
    (`ShowSlide`) accepts any index. */
module SvxCarousel {

  /** `(currentIndex + 1) % slides.length`. */
  function NextIndex(i: int, n: int): (r: int)
    requires 0 <= i < n
    ensures 0 <= r < n
    ensures r == if i == n - 1 then 0 else i + 1
  {
    (i + 1) % n
  }

  /** `(currentIndex - 1 + slides.length) % slides.length`. */
  function PrevIndex(i: int, n: int): (r: int)
    requires 0 <= i < n
    ensures 0 <= r < n
    ensures r == if i == 0 then n - 1 else i - 1
  {
    (i - 1 + n) % n
  }

  /** `prev` undoes `next` and `next` undoes `prev`. */
  lemma NextPrevInverse(i: int, n: int)
    requires 0 <= i < n
    ensures PrevIndex(NextIndex(i, n), n) == i
    ensures NextIndex(PrevIndex(i, n), n) == i
  {
  }

  /** `k` presses of `next` from slide `i`. */
  function NextTimes(i: int, n: int, k: nat): (r: int)
    requires 0 <= i < n
    ensures 0 <= r < n
  {
    if k == 0 then i else NextIndex(NextTimes(i, n, k - 1), n)
  }

  /** `k` presses of `next` advance by `k` modulo the slide count, so `n`
      presses come back to the same slide. */
  lemma {:induction false} NextTimesRotates(i: int, n: int, k: nat)
    requires 0 <= i < n
    ensures NextTimes(i, n, k) == (i + k) % n
  {
    if k > 0 {
      NextTimesRotates(i, n, k - 1);
      ModSucc(i + k - 1, n);
    }
  }

  lemma ModSucc(m: nat, n: int)
    requires n > 0
    ensures (m + 1) % n == if m % n == n - 1 then 0 else m % n + 1
  {
    var q, r := m / n, m % n;
    assert m == q * n + r;
    if r == n - 1 {
      assert m + 1 == (q + 1) * n + 0;
      DivModUnique(m + 1, n, q + 1, 0);
    } else {
      DivModUnique(m + 1, n, q, r + 1);
    }
  }

  lemma DivModUnique(a: int, n: int, q: int, r: int)
    requires n > 0 && a == q * n + r && 0 <= r < n
    ensures a % n == r
  {
    var q2, r2 := a / n, a % n;
    assert a == q2 * n + r2;
    if q > q2 {
      MulAtLeast(q - q2, n);
    } else if q < q2 {
      MulAtLeast(q2 - q, n);
    }
  }

  lemma MulAtLeast(d: int, n: int)
    requires d >= 1 && n > 0
    ensures d * n >= n
  {
  }

  class Carousel {
    /** `slides[i].style.opacity`: 1 on the slide shown, 0 elsewhere. */
    const opacity: array<int>
    var currentIndex: int

    /** Exactly the slide at `index` is opaque. */
    predicate Shows(index: int)
      reads this, opacity
    {
      forall i :: 0 <= i < opacity.Length ==> opacity[i] == (if i == index then 1 else 0)
    }

    predicate Valid()
      reads this, opacity
    {
      0 <= currentIndex < opacity.Length && Shows(currentIndex)
    }

    /** The slides are created with the first one opaque, and the index at 0. */
    constructor(n: nat)
      requires n >= 1
      ensures Valid() && opacity.Length == n && currentIndex == 0
      ensures fresh(opacity)
    {
      var a := new int[n];
      for i := 0 to n
        invariant forall j :: 0 <= j < i ==> a[j] == (if j == 0 then 1 else 0)
      {
        a[i] := if i == 0 then 1 else 0;
      }
      opacity := a;
      currentIndex := 0;
    }

    /** `showSlide(index)`: every slide gets opacity 1 if it is the one at
        `index` and 0 otherwise; then the index is stored. */
    method ShowSlide(index: int)
      modifies this, opacity
      ensures Shows(index) && currentIndex == index
    {
      for i := 0 to opacity.Length
        invariant forall j :: 0 <= j < i ==> opacity[j] == (if j == index then 1 else 0)
      {
        opacity[i] := if i == index then 1 else 0;
      }
      currentIndex := index;
    }

    method Next()
      requires Valid()
      modifies this, opacity
      ensures Valid() && currentIndex == NextIndex(old(currentIndex), opacity.Length)
    {
      ShowSlide(NextIndex(currentIndex, opacity.Length));
    }

    method Prev()
      requires Valid()
      modifies this, opacity
      ensures Valid() && currentIndex == PrevIndex(old(currentIndex), opacity.Length)
    {
      ShowSlide(PrevIndex(currentIndex, opacity.Length));
    }
  }
}
