/** The Fantasy Land laws Either satisfies (the law checks of
    test/Either/Left.js and Right.js and the Traversable laws of
    test/Either/Either.js). In method form `x.ap(y)` is `Either.Ap(x, y)`:
    the argument holds the function. */
module EitherLaws {
  import Setoid
  import Identity
  import Maybe
  import Compose
  import MaybeLaws
  import Show
  import Array
  import opened Either

  // Setoid

  lemma EqualsReflexive<L(!new), R(!new)>(a: Either<L, R>, eqL: (L, L) -> bool, eqR: (R, R) -> bool)
    requires Setoid.Reflexive(eqL) && Setoid.Reflexive(eqR)
    ensures Equals(a, a, eqL, eqR)
  {
  }

  lemma EqualsSymmetric<L(!new), R(!new)>(a: Either<L, R>, b: Either<L, R>, eqL: (L, L) -> bool, eqR: (R, R) -> bool)
    requires Setoid.Symmetric(eqL) && Setoid.Symmetric(eqR)
    ensures Equals(a, b, eqL, eqR) == Equals(b, a, eqL, eqR)
  {
  }

  lemma EqualsTransitive<L(!new), R(!new)>(
    a: Either<L, R>, b: Either<L, R>, c: Either<L, R>, eqL: (L, L) -> bool, eqR: (R, R) -> bool)
    requires Setoid.Transitive(eqL) && Setoid.Transitive(eqR)
    ensures Equals(a, b, eqL, eqR) && Equals(b, c, eqL, eqR) ==> Equals(a, c, eqL, eqR)
  {
  }

  // Semigroup

  lemma ConcatAssociative<E, F>(a: Either<seq<E>, seq<F>>, b: Either<seq<E>, seq<F>>, c: Either<seq<E>, seq<F>>)
    ensures Concat(Concat(a, b), c) == Concat(a, Concat(b, c))
  {
    match (a, b, c)
    case (Left(x), Left(y), Left(z)) =>
      assert (x + y) + z == x + (y + z);
    case (Right(x), Right(y), Right(z)) =>
      assert (x + y) + z == x + (y + z);
    case _ =>
  }

  // Functor

  lemma MapIdentity<L(!new), R(!new)>(u: Either<L, R>, eqL: (L, L) -> bool, eqR: (R, R) -> bool)
    requires Setoid.Reflexive(eqL) && Setoid.Reflexive(eqR)
    ensures Map(u, (x: R) => x) == u
    ensures Equals(Map(u, (x: R) => x), u, eqL, eqR)
  {
  }

  lemma MapComposition<L, A, B, C>(u: Either<L, A>, f: B -> C, g: A -> B)
    ensures Map(u, (x: A) => f(g(x))) == Map(Map(u, g), f)
  {
  }

  // Apply

  /** Right.js: `c.ap(b.ap(a.map(compose)))` equals `c.ap(b).ap(a)`. */
  lemma ApComposition<L, A, B, C>(c: Either<L, A>, b: Either<L, A -> B>, a: Either<L, B -> C>)
    ensures Ap(c, Ap(b, Map(a, (f: B -> C) => (g: A -> B) => (x: A) => f(g(x)))))
         == Ap(Ap(c, b), a)
  {
  }

  /** Left.js: with three Lefts, `a.map(compose).ap(b).ap(c)` and
      `a.ap(b.ap(c))` both give the last Left, since a Left argument wins. */
  lemma LeftApChain<L, A, B, C, D, E>(x: L, y: L, z: L, h: A -> B)
    ensures Ap(Ap(Map(Either<L, A>.Left(x), h), Either<L, B -> C>.Left(y)), Either<L, C -> D>.Left(z))
         == Either<L, D>.Left(z)
    ensures Ap(Either<L, A>.Left(x), Ap(Either<L, B>.Left(y), Either<L, B -> (A -> E)>.Left(z)))
         == Either<L, E>.Left(z)
  {
  }

  // Applicative

  lemma ApIdentity<L, A>(v: Either<L, A>)
    ensures Ap(v, Of((x: A) => x)) == v
  {
  }

  lemma ApHomomorphism<L, A, B>(x: A, f: A -> B)
    ensures Ap(Of<L, A>(x), Of(f)) == Of(f(x))
  {
  }

  /** `b.ap(of(f => f(x)))` equals `of(x).ap(b)`. */
  lemma ApInterchange<L, A, B>(b: Either<L, A -> B>, x: A)
    ensures Ap(b, Of((f: A -> B) => f(x))) == Ap(Of(x), b)
  {
  }

  // Chain and Monad

  lemma ChainAssociative<L, A, B, C>(m: Either<L, A>, f: A -> Either<L, B>, g: B -> Either<L, C>)
    ensures Chain(Chain(m, f), g) == Chain(m, (x: A) => Chain(f(x), g))
  {
  }

  lemma MonadLeftIdentity<L, A, B>(x: A, f: A -> Either<L, B>)
    ensures Chain(Of(x), f) == f(x)
  {
  }

  lemma MonadRightIdentity<L, A>(m: Either<L, A>)
    ensures Chain(m, (x: A) => Of(x)) == m
  {
  }

  // Alt

  lemma AltLaws<L, A, B>(a: Either<L, A>, b: Either<L, A>, c: Either<L, A>, f: A -> B)
    ensures Alt(Alt(a, b), c) == Alt(a, Alt(b, c))
    ensures Map(Alt(a, b), f) == Alt(Map(a, f), Map(b, f))
  {
  }

  // Foldable

  /** The Array of an Either's elements (none for a Left, one for a Right),
      built by reducing with append. */
  function ToArray<L, A>(e: Either<L, A>): seq<A> {
    Reduce(e, (xs: seq<A>, x: A) => xs + [x], [])
  }

  /** Reducing an Either equals reducing the Array of its elements. */
  lemma ReduceIsArrayReduce<L, A, B>(e: Either<L, A>, f: (B, A) -> B, initial: B)
    ensures Reduce(e, f, initial) == Array.Reduce(ToArray(e), f, initial)
    ensures |ToArray(e)| == if e.Right? then 1 else 0
  {
    if e.Right? {
      assert ToArray(e) == [e.rightValue];
      assert ToArray(e)[1..] == [];
    }
  }

  // Extend

  lemma ExtendAssociative<L, A, B, C>(w: Either<L, A>, f: Either<L, B> -> C, g: Either<L, A> -> B)
    ensures Extend(Extend(w, g), f) == Extend(w, (w2: Either<L, A>) => f(Extend(w2, g)))
  {
  }

  // Traversable

  /** `identityToMaybe(either.sequence(Identity))` equals
      `Z.map(identityToMaybe, either).sequence(S.Just)`. */
  lemma SequenceNaturality<L, A>(e: Either<L, Identity.Identity<A>>)
    ensures MaybeLaws.IdentityToMaybe(
              Sequence(e, (x: Either<L, A>) => Identity.Of(x),
                       (g: A -> Either<L, A>, i: Identity.Identity<A>) => Identity.Map(i, g)))
         == Sequence(Map(e, (i: Identity.Identity<A>) => MaybeLaws.IdentityToMaybe(i)),
                     (x: Either<L, A>) => Maybe.Just(x),
                     (g: A -> Either<L, A>, m: Maybe.Maybe<A>) => Maybe.Map(m, g))
  {
  }

  /** `Z.map(Identity, either).sequence(Identity)` equals `Identity(either)`. */
  lemma SequenceIdentity<L, A>(e: Either<L, A>)
    ensures Sequence(Map(e, (x: A) => Identity.Identity(x)), (x: Either<L, A>) => Identity.Of(x),
                     (g: A -> Either<L, A>, i: Identity.Identity<A>) => Identity.Map(i, g))
         == Identity.Identity(e)
  {
  }

  /** With `C = Compose(Identity)(Either)`: `Z.map(C, u).sequence(of C)`
      equals `C(Z.map(x => x.sequence(S.Right), u.sequence(Identity)))`. */
  lemma SequenceComposition<L, L2, A>(u: Either<L, Identity.Identity<Either<L2, A>>>)
    ensures Sequence(Map(u, (i: Identity.Identity<Either<L2, A>>) => Compose.Compose(i)),
                     (x: Either<L, A>) => Compose.OfEither<L2, Either<L, A>>(x),
                     (g: A -> Either<L, A>, c: Compose.Compose<Either<L2, A>>) => Compose.MapEither(c, g))
         == Compose.Compose(Identity.Map(
              Sequence(u, (x: Either<L, Either<L2, A>>) => Identity.Of(x),
                       (g: Either<L2, A> -> Either<L, Either<L2, A>>, i: Identity.Identity<Either<L2, A>>) =>
                         Identity.Map(i, g)),
              (x: Either<L, Either<L2, A>>) =>
                Sequence(x, (y: Either<L, A>) => Either<L2, Either<L, A>>.Right(y),
                         (g: A -> Either<L, A>, y: Either<L2, A>) => Map(y, g))))
  {
  }

  /** `Left('abc').toString()`: the string is shown quoted. */
  lemma LeftToStringExample<R>(showR: R -> string)
    ensures ToString(Either<string, R>.Left("abc"), Show.Quote, showR) == "Left(\"abc\")"
  {
    assert Show.Escape("c") == "c";
    assert Show.Escape("bc") == "bc";
    assert Show.Quote("abc") == "\"abc\"";
  }

  /** `Right([1, 2, 3]).toString()`. */
  lemma RightToStringExample<L>(showL: L -> string)
    ensures ToString(Either<L, seq<int>>.Right([1, 2, 3]), showL, (xs: seq<int>) => Show.ShowArray(xs, Show.IntToString))
         == "Right([1, 2, 3])"
  {
  }
}
