/** The Maybe type: `Nothing`, or `Just(value)` holding one value
    (test/Maybe/Maybe.js, test/Maybe/Just.js, test/Maybe/Nothing.js).
    Each operation takes its receiver first: `Map(m, f)` is `m.map(f)` and
    `Ap(m, mf)` is `m.ap(mf)`, so the curried `S.ap(mf, mx)` is `Ap(mx, mf)`.
    The unprefixed methods and `inspect` are aliases of the `fantasy-land/`
    methods and of `toString`, so each is one function here. */
module Maybe {
  import Show
  import Errors

  /** The `@@type` every Maybe carries. */
  const Tag := "sanctuary/Maybe"

  datatype Maybe<T> = Nothing | Just(value: T) {
    predicate IsNothing() { Nothing? }
    predicate IsJust() { Just? }
  }

  /** Calling the type representative `Maybe` itself throws. */
  function Instantiate<T>(): (r: Errors.Result<Maybe<T>>)
    ensures r == Errors.Thrown("Cannot instantiate Maybe")
  {
    assert Errors.CannotInstantiate("Maybe") == "Cannot instantiate Maybe";
    Errors.Thrown(Errors.CannotInstantiate("Maybe"))
  }

  /** `Z.of(Maybe, x)`. */
  function Of<T>(x: T): Maybe<T> {
    Just(x)
  }

  /** `Z.empty(Maybe)`. */
  function Empty<T>(): Maybe<T> {
    Nothing
  }

  /** Same variant, and for two Justs the held values equal by `eq`,
      the held type's own equality. */
  function Equals<T>(a: Maybe<T>, b: Maybe<T>, eq: (T, T) -> bool): bool {
    match (a, b)
    case (Nothing, Nothing) => true
    case (Just(x), Just(y)) => eq(x, y)
    case _ => false
  }

  /** Concatenation of held semigroup values (strings and arrays). */
  function Concat<E>(a: Maybe<seq<E>>, b: Maybe<seq<E>>): Maybe<seq<E>> {
    match (a, b)
    case (Nothing, _) => b
    case (Just(_), Nothing) => a
    case (Just(x), Just(y)) => Just(x + y)
  }

  function Map<A, B>(m: Maybe<A>, f: A -> B): Maybe<B> {
    match m
    case Nothing => Nothing
    case Just(x) => Just(f(x))
  }

  /** `m.ap(mf)`: the argument holds the function. */
  function Ap<A, B>(m: Maybe<A>, mf: Maybe<A -> B>): Maybe<B> {
    match (m, mf)
    case (Nothing, _) => Nothing
    case (Just(_), Nothing) => Nothing
    case (Just(x), Just(f)) => Just(f(x))
  }

  function Chain<A, B>(m: Maybe<A>, f: A -> Maybe<B>): Maybe<B> {
    match m
    case Nothing => Nothing
    case Just(x) => f(x)
  }

  function Alt<T>(a: Maybe<T>, b: Maybe<T>): Maybe<T> {
    match a
    case Nothing => b
    case Just(_) => a
  }

  function Reduce<A, B>(m: Maybe<A>, f: (B, A) -> B, initial: B): B {
    match m
    case Nothing => initial
    case Just(x) => f(initial, x)
  }

  /** `w.extend(f)`: `f` receives the whole Maybe, not the held value. */
  function Extend<A, B>(w: Maybe<A>, f: Maybe<A> -> B): Maybe<B> {
    match w
    case Nothing => Nothing
    case Just(_) => Just(f(w))
  }

  /** `u.traverse(typeRep, f)` into any applicative, given by its `of`
      (for `Z.of(typeRep, ...)`) and its `fmap` (for `Z.map`). */
  function Traverse<A, B, FB, FMB>(
    u: Maybe<A>, of: Maybe<B> -> FMB, fmap: (B -> Maybe<B>, FB) -> FMB, f: A -> FB): FMB
  {
    match u
    case Nothing => of(Nothing)
    case Just(x) => fmap(y => Just(y), f(x))
  }

  /** `toString` and `inspect`, given the held type's `Z.toString`. */
  function ToString<T>(m: Maybe<T>, show: T -> string): string {
    match m
    case Nothing => "Nothing"
    case Just(x) => Show.Wrap("Just", show(x))
  }

  lemma ExactlyOneVariant<T>(m: Maybe<T>)
    ensures m.IsNothing() != m.IsJust()
    ensures m.IsJust() <==> m.Just?
  {
  }

  /** What the tests pin down for `Just(v)`. */
  lemma JustBehaviour<A, B>(
    v: A, other: Maybe<A>, f: A -> B, k: A -> Maybe<B>, w: Maybe<A> -> B, r: (B, A) -> B, z: B)
    ensures Alt(Just(v), other) == Just(v)
    ensures Ap(Just(v), Just(f)) == Just(f(v)) && Ap<A, B>(Just(v), Nothing) == Nothing
    ensures Chain(Just(v), k) == k(v)
    ensures Map(Just(v), f) == Just(f(v))
    ensures Extend(Just(v), w) == Just(w(Just(v)))
    ensures Reduce(Just(v), r, z) == r(z, v)
  {
  }

  /** What the tests pin down for `Nothing`: every operation passes it
      through, returns the argument, or returns the initial accumulator. */
  lemma NothingBehaviour<A, B>(
    other: Maybe<A>, mf: Maybe<A -> B>, f: A -> B, k: A -> Maybe<B>, w: Maybe<A> -> B,
    r: (B, A) -> B, z: B)
    ensures Alt(Nothing, other) == other
    ensures Ap(Nothing, mf) == Nothing
    ensures Chain(Nothing, k) == Nothing
    ensures Map(Nothing, f) == Nothing
    ensures Extend(Nothing, w) == Nothing
    ensures Reduce(Nothing, r, z) == z
  {
  }

  /** `concat` with Nothing on either side gives the other side;
      two Justs concatenate their values. */
  lemma ConcatCases<E>(a: seq<E>, b: seq<E>, m: Maybe<seq<E>>)
    ensures Concat(Nothing, m) == m && Concat(m, Nothing) == m
    ensures Concat(Just(a), Just(b)) == Just(a + b)
  {
  }

  /** `equals` never holds across variants; on two Justs it is the held
      type's equality; with `==` as that equality it is structural equality. */
  lemma EqualsCases<T>(a: Maybe<T>, b: Maybe<T>, eq: (T, T) -> bool)
    ensures a.Just? != b.Just? ==> !Equals(a, b, eq)
    ensures Equals(Nothing, b, eq) <==> b.Nothing?
    ensures a.Just? && b.Just? ==> (Equals(a, b, eq) <==> eq(a.value, b.value))
    ensures Equals(a, b, (x, y) => x == y) <==> a == b
  {
  }

  /** `toString` is `Nothing` or `Just(<inner>)`, and two different Maybes
      never print the same when the held type's form is injective. */
  lemma ToStringInjective<T(!new)>(a: Maybe<T>, b: Maybe<T>, show: T -> string)
    requires Show.Injective(show)
    ensures ToString(Nothing, show) == "Nothing"
    ensures ToString(a, show) == ToString(b, show) ==> a == b
  {
    match (a, b)
    case (Just(x), Just(y)) =>
      Show.WrapInjective("Just", show(x), show(y));
    case (Nothing, Just(y)) =>
      assert ToString(b, show)[0] == 'J';
    case (Just(x), Nothing) =>
      assert ToString(a, show)[0] == 'J';
    case (Nothing, Nothing) =>
  }
}
