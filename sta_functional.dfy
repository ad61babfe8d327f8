/** `pipe` and `compose` of the StaMina plugin, on functions from one type to itself. */
module StaFunctional {

  /** `S.pipe(...fns)(x)`: `fns.reduce((v, f) => f(v), x)`, first function first. */
  function Pipe<T>(fns: seq<T -> T>, x: T): T
  {
    if fns == [] then x else Pipe(fns[1..], fns[0](x))
  }

  /** `S.compose(...fns)(x)`: `fns.reduceRight((v, f) => f(v), x)`, last function first. */
  function Compose<T>(fns: seq<T -> T>, x: T): T
  {
    if fns == [] then x else Compose(fns[..|fns| - 1], fns[|fns| - 1](x))
  }

  function Reverse<T>(s: seq<T>): (r: seq<T>)
    ensures |r| == |s|
    ensures forall i :: 0 <= i < |s| ==> r[i] == s[|s| - 1 - i]
  {
    if s == [] then [] else Reverse(s[1..]) + [s[0]]
  }

  /** Piping a concatenation pipes through the first part, then the second. */
  lemma {:induction false} PipeAppend<T>(a: seq<T -> T>, b: seq<T -> T>, x: T)
    ensures Pipe(a + b, x) == Pipe(b, Pipe(a, x))
    decreases |a|
  {
    if a == [] {
      assert a + b == b;
    } else {
      assert (a + b)[1..] == a[1..] + b;
      PipeAppend(a[1..], b, a[0](x));
    }
  }

  /** Composing is piping the functions in reverse order. */
  lemma {:induction false} ComposeIsReversedPipe<T>(fns: seq<T -> T>, x: T)
    ensures Compose(fns, x) == Pipe(Reverse(fns), x)
    decreases |fns|
  {
    if fns != [] {
      var init, last := fns[..|fns| - 1], fns[|fns| - 1];
      ComposeIsReversedPipe(init, last(x));
      assert Reverse(fns) == [last] + Reverse(init);
      assert ([last] + Reverse(init))[1..] == Reverse(init);
    }
  }
}
