/** The Either type: `Left(value)` for the alternate branch, `Right(value)`
    for the primary one (test/Either/Left.js, Right.js, Either.js).
    Each operation takes its receiver first: `Ap(e, ef)` is `e.ap(ef)`.
    Both variants expose their payload as `.value` in the source; here the
    two destructors are `leftValue` and `rightValue`, since they differ in type. */
module Either {
  import Show
  import Errors

  /** The `@@type` every Either carries. */
  const Tag := "sanctuary/Either"

  datatype Either<L, R> = Left(leftValue: L) | Right(rightValue: R) {
    predicate IsLeft() { Left? }
    predicate IsRight() { Right? }
  }

  /** Calling the type representative `Either` itself throws. */
  function Instantiate<L, R>(): (r: Errors.Result<Either<L, R>>)
    ensures r == Errors.Thrown("Cannot instantiate Either")
  {
    assert Errors.CannotInstantiate("Either") == "Cannot instantiate Either";
    Errors.Thrown(Errors.CannotInstantiate("Either"))
  }

  /** `Z.of(Either, x)`. */
  function Of<L, R>(x: R): Either<L, R> {
    Right(x)
  }

  /** Same variant, and the payloads equal by that side's own equality. */
  function Equals<L, R>(a: Either<L, R>, b: Either<L, R>, eqL: (L, L) -> bool, eqR: (R, R) -> bool): bool {
    match (a, b)
    case (Left(x), Left(y)) => eqL(x, y)
    case (Right(x), Right(y)) => eqR(x, y)
    case _ => false
  }

  /** Two Lefts or two Rights concatenate; a Right absorbs a Left on either side. */
  function Concat<E, F>(a: Either<seq<E>, seq<F>>, b: Either<seq<E>, seq<F>>): Either<seq<E>, seq<F>> {
    match (a, b)
    case (Left(x), Left(y)) => Left(x + y)
    case (Left(_), Right(_)) => b
    case (Right(_), Left(_)) => a
    case (Right(x), Right(y)) => Right(x + y)
  }

  function Map<L, A, B>(e: Either<L, A>, f: A -> B): Either<L, B> {
    match e
    case Left(x) => Left(x)
    case Right(x) => Right(f(x))
  }

  /** `e.ap(ef)`: the argument holds the function, and a Left argument wins
      over everything, including a Left receiver. */
  function Ap<L, A, B>(e: Either<L, A>, ef: Either<L, A -> B>): Either<L, B> {
    match (e, ef)
    case (_, Left(y)) => Left(y)
    case (Left(x), Right(_)) => Left(x)
    case (Right(x), Right(f)) => Right(f(x))
  }

  function Chain<L, A, B>(e: Either<L, A>, f: A -> Either<L, B>): Either<L, B> {
    match e
    case Left(x) => Left(x)
    case Right(x) => f(x)
  }

  function Alt<L, R>(a: Either<L, R>, b: Either<L, R>): Either<L, R> {
    match a
    case Left(_) => b
    case Right(_) => a
  }

  function Reduce<L, A, B>(e: Either<L, A>, f: (B, A) -> B, initial: B): B {
    match e
    case Left(_) => initial
    case Right(x) => f(initial, x)
  }

  /** `w.extend(f)`: `f` receives the whole Either. */
  function Extend<L, A, B>(w: Either<L, A>, f: Either<L, A> -> B): Either<L, B> {
    match w
    case Left(x) => Left(x)
    case Right(_) => Right(f(w))
  }

  /** `e.traverse(typeRep, f)` into any applicative, given by its `of` and `fmap`. */
  function Traverse<L, A, B, FB, FEB>(
    e: Either<L, A>, of: Either<L, B> -> FEB, fmap: (B -> Either<L, B>, FB) -> FEB, f: A -> FB): FEB
  {
    match e
    case Left(x) => of(Left(x))
    case Right(x) => fmap(y => Right(y), f(x))
  }

  /** `e.sequence(of)`: traverse with the identity function. */
  function Sequence<L, B, FB, FEB>(
    e: Either<L, FB>, of: Either<L, B> -> FEB, fmap: (B -> Either<L, B>, FB) -> FEB): FEB
  {
    Traverse(e, of, fmap, (x: FB) => x)
  }

  /** `toString` and `inspect`, given each side's `Z.toString`. */
  function ToString<L, R>(e: Either<L, R>, showL: L -> string, showR: R -> string): string {
    match e
    case Left(x) => Show.Wrap("Left", showL(x))
    case Right(x) => Show.Wrap("Right", showR(x))
  }

  lemma ExactlyOneVariant<L, R>(e: Either<L, R>)
    ensures e.IsLeft() != e.IsRight()
    ensures e.IsRight() <==> e.Right?
  {
  }

  /** Constructing and reading the payload back gives the argument. */
  lemma ValueRoundTrip<L, R>(x: L, y: R)
    ensures Either<L, R>.Left(x).leftValue == x && Either<L, R>.Right(y).rightValue == y
    ensures Either<L, R>.Left(x).IsLeft() && Either<L, R>.Right(y).IsRight()
  {
  }

  /** What the tests pin down for `Left(a)`: it passes through `map`, `chain`
      and `extend`, `alt` gives the argument, and `reduce` the initial value. */
  lemma LeftBehaviour<L, A, B>(
    a: L, other: Either<L, A>, f: A -> B, k: A -> Either<L, B>, w: Either<L, A> -> B,
    r: (B, A) -> B, z: B, ef: A -> B, b: L)
    ensures Alt(Left(a), other) == other
    ensures Ap(Either<L, A>.Left(a), Left(b)) == Either<L, B>.Left(b)
    ensures Ap(Left(a), Right(ef)) == Left(a)
    ensures Map(Left(a), f) == Left(a)
    ensures Chain(Left(a), k) == Left(a)
    ensures Extend(Left(a), w) == Left(a)
    ensures Reduce(Left(a), r, z) == z
  {
  }

  /** What the tests pin down for `Right(v)`. */
  lemma RightBehaviour<L, A, B>(
    v: A, other: Either<L, A>, f: A -> B, k: A -> Either<L, B>, w: Either<L, A> -> B,
    r: (B, A) -> B, z: B, e: L)
    ensures Alt(Right(v), other) == Right(v)
    ensures Ap(Right(v), Left(e)) == Either<L, B>.Left(e)
    ensures Ap(Either<L, A>.Right(v), Right(f)) == Right(f(v))
    ensures Map(Either<L, A>.Right(v), f) == Right(f(v))
    ensures Chain(Right(v), k) == k(v)
    ensures Extend(Right(v), w) == Right(w(Right(v)))
    ensures Reduce(Either<L, A>.Right(v), r, z) == r(z, v)
  {
  }

  lemma ConcatCases<E, F>(a: seq<E>, b: seq<E>, x: seq<F>, y: seq<F>)
    ensures Concat(Either<seq<E>, seq<F>>.Left(a), Left(b)) == Left(a + b)
    ensures Concat(Left(a), Right(y)) == Right(y)
    ensures Concat(Right(x), Left(a)) == Right(x)
    ensures Concat(Either<seq<E>, seq<F>>.Right(x), Right(y)) == Right(x + y)
  {
  }

  /** `equals` never holds between a Left and a Right; within a side it is
      that side's equality; with `==` on both sides it is structural equality. */
  lemma EqualsCases<L, R>(a: Either<L, R>, b: Either<L, R>, eqL: (L, L) -> bool, eqR: (R, R) -> bool)
    ensures a.Left? != b.Left? ==> !Equals(a, b, eqL, eqR)
    ensures a.Left? && b.Left? ==> (Equals(a, b, eqL, eqR) <==> eqL(a.leftValue, b.leftValue))
    ensures a.Right? && b.Right? ==> (Equals(a, b, eqL, eqR) <==> eqR(a.rightValue, b.rightValue))
    ensures Equals(a, b, (x, y) => x == y, (x, y) => x == y) <==> a == b
  {
  }

  /** Two different Eithers never print the same when both sides' forms are injective. */
  lemma ToStringInjective<L(!new), R(!new)>(a: Either<L, R>, b: Either<L, R>, showL: L -> string, showR: R -> string)
    requires Show.Injective(showL) && Show.Injective(showR)
    ensures ToString(a, showL, showR) == ToString(b, showL, showR) ==> a == b
  {
    match (a, b)
    case (Left(x), Left(y)) =>
      Show.WrapInjective("Left", showL(x), showL(y));
    case (Right(x), Right(y)) =>
      Show.WrapInjective("Right", showR(x), showR(y));
    case (Left(x), Right(y)) =>
      assert ToString(a, showL, showR)[0] == 'L';
    case (Right(x), Left(y)) =>
      assert ToString(a, showL, showR)[0] == 'R';
  }
}
