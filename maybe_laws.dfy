/** The Fantasy Land laws Maybe satisfies (test/Maybe/Maybe.js and the law
    checks of Just.js and Nothing.js). Laws are proved as equality of
    values, which implies the library's `equals` for every reflexive
    element equality (`EqualsReflexive`). In the curried form the tests use,
    `S.ap(mf, mx)` is `Maybe.Ap(mx, mf)`. */
module MaybeLaws {
  import Setoid
  import Show
  import Array
  import Identity
  import Compose
  import opened Maybe

  // Setoid

  lemma EqualsReflexive<T(!new)>(a: Maybe<T>, eq: (T, T) -> bool)
    requires Setoid.Reflexive(eq)
    ensures Equals(a, a, eq)
  {
  }

  lemma EqualsSymmetric<T(!new)>(a: Maybe<T>, b: Maybe<T>, eq: (T, T) -> bool)
    requires Setoid.Symmetric(eq)
    ensures Equals(a, b, eq) == Equals(b, a, eq)
  {
  }

  lemma EqualsTransitive<T(!new)>(a: Maybe<T>, b: Maybe<T>, c: Maybe<T>, eq: (T, T) -> bool)
    requires Setoid.Transitive(eq)
    ensures Equals(a, b, eq) && Equals(b, c, eq) ==> Equals(a, c, eq)
  {
  }

  // Semigroup and Monoid

  lemma ConcatAssociative<E>(a: Maybe<seq<E>>, b: Maybe<seq<E>>, c: Maybe<seq<E>>)
    ensures Concat(Concat(a, b), c) == Concat(a, Concat(b, c))
  {
    if a.Just? && b.Just? && c.Just? {
      assert (a.value + b.value) + c.value == a.value + (b.value + c.value);
    }
  }

  lemma EmptyIsIdentity<E>(m: Maybe<seq<E>>)
    ensures Concat(Empty(), m) == m
    ensures Concat(m, Empty()) == m
  {
  }

  // Functor

  lemma MapIdentity<T(!new)>(u: Maybe<T>, eq: (T, T) -> bool)
    requires Setoid.Reflexive(eq)
    ensures Map(u, (x: T) => x) == u
    ensures Equals(Map(u, (x: T) => x), u, eq)
  {
  }

  lemma MapComposition<A, B, C>(u: Maybe<A>, f: B -> C, g: A -> B)
    ensures Map(u, (x: A) => f(g(x))) == Map(Map(u, g), f)
  {
  }

  // Apply

  /** `S.ap(S.ap(S.map(S.compose, mf), mg), a)` equals `S.ap(mf, S.ap(mg, a))`. */
  lemma ApComposition<A, B, C>(a: Maybe<A>, mf: Maybe<B -> C>, mg: Maybe<A -> B>)
    ensures Ap(a, Ap(mg, Map(mf, (f: B -> C) => (g: A -> B) => (x: A) => f(g(x)))))
         == Ap(Ap(a, mg), mf)
  {
  }

  // Applicative

  lemma ApIdentity<A>(v: Maybe<A>)
    ensures Ap(v, Of((x: A) => x)) == v
  {
  }

  lemma ApHomomorphism<A, B>(x: A, f: A -> B)
    ensures Ap(Of(x), Of(f)) == Of(f(x))
  {
  }

  /** `S.ap(u, S.of(x))` equals `S.ap(S.of(S.T(x)), u)`. */
  lemma ApInterchange<A, B>(u: Maybe<A -> B>, x: A)
    ensures Ap(Of(x), u) == Ap(u, Of((f: A -> B) => f(x)))
  {
  }

  // Chain and Monad

  lemma ChainAssociative<A, B, C>(m: Maybe<A>, f: A -> Maybe<B>, g: B -> Maybe<C>)
    ensures Chain(Chain(m, f), g) == Chain(m, (x: A) => Chain(f(x), g))
  {
  }

  lemma MonadLeftIdentity<A, B>(x: A, f: A -> Maybe<B>)
    ensures Chain(Of(x), f) == f(x)
  {
  }

  lemma MonadRightIdentity<A>(m: Maybe<A>)
    ensures Chain(m, (x: A) => Of(x)) == m
  {
  }

  // Alt (with Nothing as its identity)

  lemma AltLaws<A, B>(a: Maybe<A>, b: Maybe<A>, c: Maybe<A>, f: A -> B)
    ensures Alt(Alt(a, b), c) == Alt(a, Alt(b, c))
    ensures Map(Alt(a, b), f) == Alt(Map(a, f), Map(b, f))
    ensures Alt(Nothing, a) == a && Alt(a, Nothing) == a
  {
  }

  // Foldable

  /** The Array of a Maybe's elements, built by reducing with append. */
  function ToArray<A>(u: Maybe<A>): seq<A> {
    Reduce(u, (xs: seq<A>, x: A) => xs + [x], [])
  }

  /** Reducing a Maybe equals reducing the Array of its elements. */
  lemma ReduceIsArrayReduce<A, B>(u: Maybe<A>, f: (B, A) -> B, initial: B)
    ensures Reduce(u, f, initial) == Array.Reduce(ToArray(u), f, initial)
    ensures |ToArray(u)| <= 1
  {
    if u.Just? {
      assert ToArray(u) == [u.value];
      assert ToArray(u)[1..] == [];
    }
  }

  /** The other operations seen through the Array of elements: `map` maps it,
      `alt` keeps the first element of the two Arrays joined, `chain` flattens. */
  lemma ArrayView<A, B>(a: Maybe<A>, b: Maybe<A>, f: A -> B, k: A -> Maybe<B>)
    ensures ToArray(Map(a, f)) == Array.Map(f, ToArray(a))
    ensures ToArray(Alt(a, b)) == (ToArray(a) + ToArray(b))[..if a.Just? || b.Just? then 1 else 0]
    ensures ToArray(Chain(a, k)) == if a.Just? then ToArray(k(a.value)) else []
  {
  }

  // Extend

  lemma ExtendAssociative<A, B, C>(w: Maybe<A>, f: Maybe<B> -> C, g: Maybe<A> -> B)
    ensures Extend(Extend(w, g), f) == Extend(w, (w2: Maybe<A>) => f(Extend(w2, g)))
  {
  }

  // Traversable

  /** The natural transformation of the naturality test: Identity to Just. */
  function IdentityToMaybe<A>(i: Identity.Identity<A>): Maybe<A> {
    Just(i.value)
  }

  /** Traversing into Array with `duplicate` gives two Justs, and Nothing
      gives a one-element Array. */
  lemma TraverseIntoArray<A>(x: A)
    ensures Traverse(Just(x), (m: Maybe<A>) => Array.Of(m), (g: A -> Maybe<A>, xs: seq<A>) => Array.Map(g, xs),
                     (y: A) => [y, y]) == [Just(x), Just(x)]
    ensures Traverse(Nothing, (m: Maybe<A>) => Array.Of(m), (g: A -> Maybe<A>, xs: seq<A>) => Array.Map(g, xs),
                     (y: A) => [y, y]) == [Nothing]
  {
  }

  lemma TraverseNaturality<A, B>(u: Maybe<A>, f: A -> Identity.Identity<B>)
    ensures IdentityToMaybe(Traverse(u, (m: Maybe<B>) => Identity.Of(m),
                                     (g: B -> Maybe<B>, i: Identity.Identity<B>) => Identity.Map(i, g), f))
         == Traverse(u, (m: Maybe<B>) => Of(m),
                     (g: B -> Maybe<B>, n: Maybe<B>) => Map(n, g), (x: A) => IdentityToMaybe(f(x)))
  {
  }

  lemma TraverseIdentity<A>(u: Maybe<A>)
    ensures Traverse(u, (m: Maybe<A>) => Array.Of(m), (g: A -> Maybe<A>, xs: seq<A>) => Array.Map(g, xs),
                     (x: A) => Array.Of(x)) == Array.Of(u)
  {
    if u.Just? {
      var r := Traverse(u, (m: Maybe<A>) => Array.Of(m), (g: A -> Maybe<A>, xs: seq<A>) => Array.Map(g, xs),
                        (x: A) => Array.Of(x));
      assert |r| == 1 && r[0] == u;
    }
  }

  /** Traversing into Compose(Identity)(Maybe) equals traversing into
      Identity and then, inside it, into Maybe. */
  lemma TraverseComposition<A>(u: Maybe<Identity.Identity<Maybe<A>>>)
    ensures Traverse(u, (m: Maybe<A>) => Compose.OfMaybe(m),
                     (g: A -> Maybe<A>, c: Compose.Compose<Maybe<A>>) => Compose.MapMaybe(c, g),
                     (i: Identity.Identity<Maybe<A>>) => Compose.Compose(i))
         == Compose.Compose(Identity.Map(
              Traverse(u, (m: Maybe<Maybe<A>>) => Identity.Of(m),
                       (g: Maybe<A> -> Maybe<Maybe<A>>, i: Identity.Identity<Maybe<A>>) => Identity.Map(i, g),
                       (i: Identity.Identity<Maybe<A>>) => i),
              (v: Maybe<Maybe<A>>) => Traverse(v, (m: Maybe<A>) => Of(m),
                                               (g: A -> Maybe<A>, n: Maybe<A>) => Map(n, g),
                                               (n: Maybe<A>) => n)))
  {
  }

  /** `Just([1, 2, 3]).toString()` and `Nothing.toString()`. */
  lemma ToStringExamples()
    ensures ToString(Just([1, 2, 3]), (xs: seq<int>) => Show.ShowArray(xs, Show.IntToString)) == "Just([1, 2, 3])"
    ensures ToString(Nothing, (xs: seq<int>) => Show.ShowArray(xs, Show.IntToString)) == "Nothing"
  {
  }
}
