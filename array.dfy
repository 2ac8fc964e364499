/** The JavaScript Array operations the laws use: `of`, `map` and `reduce`.
    The Traversable identity law traverses into Array, and the Foldable law
    compares a reduction with the reduction of the list of elements. */
module Array {

  /** `Z.of(Array, x)`. */
  function Of<T>(x: T): seq<T> {
    [x]
  }

  /** `Z.map(g, xs)`. */
  function Map<A, B>(g: A -> B, xs: seq<A>): (ys: seq<B>)
    ensures |ys| == |xs|
    ensures forall i | 0 <= i < |xs| :: ys[i] == g(xs[i])
  {
    if xs == [] then [] else [g(xs[0])] + Map(g, xs[1..])
  }

  /** `xs.reduce(f, initial)`: a left fold. */
  function Reduce<A, B>(xs: seq<A>, f: (B, A) -> B, initial: B): B {
    if xs == [] then initial else Reduce(xs[1..], f, f(initial, xs[0]))
  }
}
