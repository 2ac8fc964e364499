/** The one-field functor the Traversable laws use as an applicative
    (test/internal/Identity.js). */
module Identity {
  import Show

  const Tag := "sanctuary/Identity"

  datatype Identity<T> = Identity(value: T)

  /** `fantasy-land/of` is the constructor itself. */
  function Of<T>(x: T): Identity<T> {
    Identity(x)
  }

  function Map<A, B>(i: Identity<A>, f: A -> B): Identity<B> {
    Identity(f(i.value))
  }

  /** As written, `ap` applies the held value to the argument object itself,
      not to a value inside it. */
  function Ap<Y, B>(i: Identity<Y -> B>, y: Y): Identity<B> {
    Identity(i.value(y))
  }

  /** Compares the held value with `other.value` by the held type's equality. */
  function Equals<T>(i: Identity<T>, other: Identity<T>, eq: (T, T) -> bool): bool {
    eq(i.value, other.value)
  }

  function ToString<T>(i: Identity<T>, show: T -> string): string {
    Show.Wrap("Identity", show(i.value))
  }

  lemma MapIdentity<T>(i: Identity<T>, eq: (T, T) -> bool)
    requires forall x :: eq(x, x)
    ensures Map(i, x => x) == i
    ensures Equals(Map(i, x => x), i, eq)
  {
  }

  lemma MapComposition<A, B, C>(i: Identity<A>, f: B -> C, g: A -> B)
    ensures Map(i, x => f(g(x))) == Map(Map(i, g), f)
  {
  }

  /** `ap` is the map that feeds the argument to the held function. */
  lemma ApIsMapApplying<Y, B>(i: Identity<Y -> B>, y: Y)
    ensures Ap(i, y) == Map(i, (g: Y -> B) => g(y))
    ensures Ap(i, y).value == i.value(y)
  {
  }

  lemma EqualsComparesValues<T>(i: Identity<T>, other: Identity<T>, eq: (T, T) -> bool)
    ensures Equals(i, other, eq) <==> eq(i.value, other.value)
    ensures Equals(i, other, (a, b) => a == b) <==> i == other
  {
  }

  lemma ToStringInjective<T(!new)>(a: Identity<T>, b: Identity<T>, show: T -> string)
    requires Show.Injective(show)
    ensures ToString(a, show) == ToString(b, show) ==> a == b
  {
    Show.WrapInjective("Identity", show(a.value), show(b.value));
  }
}
