/** Functor composition `Compose(F)(G)` (test/internal/Compose.js), with
    F = Identity and G = Maybe or Either, the instances the Traversable
    composition laws build. A value's `value` is an Identity holding a
    G-structure. */
module Compose {
  import Show
  import Identity
  import Maybe
  import Either

  const Tag := "sanctuary/Compose"

  datatype Compose<GA> = Compose(value: Identity.Identity<GA>)

  /** `Compose(Identity)(Maybe)['fantasy-land/of']`: `Compose(F.of(G.of(x)))`. */
  function OfMaybe<A>(x: A): Compose<Maybe.Maybe<A>> {
    Compose(Identity.Of(Maybe.Of(x)))
  }

  /** `map` applies `f` through both layers: map over F of map over G. */
  function MapMaybe<A, B>(c: Compose<Maybe.Maybe<A>>, f: A -> B): Compose<Maybe.Maybe<B>> {
    Compose(Identity.Map(c.value, (m: Maybe.Maybe<A>) => Maybe.Map(m, (x: A) => f(x))))
  }

  /** `Compose(Identity)(Either)['fantasy-land/of']`. */
  function OfEither<L, A>(x: A): Compose<Either.Either<L, A>> {
    Compose(Identity.Of(Either.Of(x)))
  }

  function MapEither<L, A, B>(c: Compose<Either.Either<L, A>>, f: A -> B): Compose<Either.Either<L, B>> {
    Compose(Identity.Map(c.value, (e: Either.Either<L, A>) => Either.Map(e, (x: A) => f(x))))
  }

  /** Compares the held F-structure with `other.value` by F's equality,
      which for F = Identity compares the G-structures by `eq`. */
  function Equals<GA>(c: Compose<GA>, other: Compose<GA>, eq: (GA, GA) -> bool): bool {
    Identity.Equals(c.value, other.value, eq)
  }

  /** `Compose(<F>)(<G>)(<x>)`, given the forms of F and G and of the G-structure. */
  function ToString<GA>(c: Compose<GA>, showF: string, showG: string, show: GA -> string): string {
    "Compose(" + showF + ")(" + showG + ")(" + Identity.ToString(c.value, show) + ")"
  }

  lemma MapMaybeThroughBothLayers<A, B>(c: Compose<Maybe.Maybe<A>>, f: A -> B)
    ensures MapMaybe(c, f).value.value == Maybe.Map(c.value.value, f)
  {
  }

  lemma MapEitherThroughBothLayers<L, A, B>(c: Compose<Either.Either<L, A>>, f: A -> B)
    ensures MapEither(c, f).value.value == Either.Map(c.value.value, f)
  {
  }

  /** Compose(Identity)(Maybe) is a functor: identity and composition. */
  lemma MapMaybeLaws<A, B, C>(c: Compose<Maybe.Maybe<A>>, f: B -> C, g: A -> B)
    ensures MapMaybe(c, (x: A) => x) == c
    ensures MapMaybe(c, (x: A) => f(g(x))) == MapMaybe(MapMaybe(c, g), f)
  {
  }

  /** Compose(Identity)(Either) is a functor: identity and composition. */
  lemma MapEitherLaws<L, A, B, C>(c: Compose<Either.Either<L, A>>, f: B -> C, g: A -> B)
    ensures MapEither(c, (x: A) => x) == c
    ensures MapEither(c, (x: A) => f(g(x))) == MapEither(MapEither(c, g), f)
  {
  }

  /** `of` followed by `map` is `of` of the mapped value (homomorphism of the unit). */
  lemma OfThenMap<L, A, B>(x: A, f: A -> B)
    ensures MapMaybe(OfMaybe(x), f) == OfMaybe(f(x))
    ensures MapEither(OfEither<L, A>(x), f) == OfEither(f(x))
  {
  }

  lemma EqualsComparesValues<GA>(c: Compose<GA>, other: Compose<GA>, eq: (GA, GA) -> bool)
    ensures Equals(c, other, eq) <==> eq(c.value.value, other.value.value)
    ensures Equals(c, other, (a, b) => a == b) <==> c == other
  {
  }

  lemma ToStringInjective<GA(!new)>(a: Compose<GA>, b: Compose<GA>, showF: string, showG: string, show: GA -> string)
    requires Show.Injective(show)
    ensures ToString(a, showF, showG, show) == ToString(b, showF, showG, show) ==> a == b
  {
    var prefix := "Compose(" + showF + ")(" + showG + ")";
    assert ToString(a, showF, showG, show) == Show.Wrap(prefix, Identity.ToString(a.value, show));
    assert ToString(b, showF, showG, show) == Show.Wrap(prefix, Identity.ToString(b.value, show));
    Show.WrapInjective(prefix, Identity.ToString(a.value, show), Identity.ToString(b.value, show));
    Identity.ToStringInjective(a.value, b.value, show);
  }
}
