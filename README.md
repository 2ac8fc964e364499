# Sanctuary's Maybe, Either and `gt`, modelled in Dafny

This project models the behaviour that Sanctuary's test suite pins down for four things:

- **Maybe** (`Nothing | Just(value)`) and **Either** (`Left(value) | Right(value)`). The model covers their Fantasy Land methods: `equals`, `concat`, `map`, `ap`, `chain`, `alt`, `reduce`, `traverse`/`sequence` and `extend`, plus `toString` and the guard that refuses calls to the type representatives.
- **`gt`**, the checked comparison `gt :: Ord a => a -> a -> Boolean`. The model covers its run-time type checking, the TypeError message it builds, and its `>` semantics.
- **Identity** and **Compose(F)(G)**, the two helper applicatives the Traversable laws use.

Everything is pure. Each core file is a set of values and functions over them, so each becomes a `datatype`, `function`s and `lemma`s. Operations take their receiver first: `Maybe.Ap(m, mf)` is `m.ap(mf)`, so the curried `S.ap(mf, mx)` is `Ap(mx, mf)`. `traverse` and `sequence` take the target applicative as its `of` and its `map`. The laws are instantiated with Identity, Maybe, Either, Array (`seq`) and Compose(Identity)(Maybe or Either).

The property-based law checks become lemmas over all values: Setoid, Semigroup, Monoid, Functor, Apply, Applicative, Chain, Monad, Alt, Foldable, Traversable and Extend. They are proved as equality of values. That implies the library's `equals` whenever the element equality is reflexive (`MaybeLaws.EqualsReflexive`), and the Setoid laws themselves are proved for any element equality that has them. The example assertions of the tests become example lemmas.

The tests fix three points of behaviour:

- When both operands of Either's `ap` are Lefts, the argument's Left is the result (test/Either/Left.js:31). `Either.Ap` does this, and `EitherLaws.LeftApChain` states it for the test's three Lefts.
- `gt(null)` fails with only one argument supplied (test/gt.js:19). Each argument is checked as it is supplied, and a call with fewer than two arguments that passes the checks is a partial application (`Gt.Outcome.Partial`).
- The types listed for a number come in the order the message prints them (test/gt.js:41): Number, FiniteNumber, NonZeroFiniteNumber, Integer, ValidNumber. That is not narrowest first.

Modules: `Show` (the `Z.toString` forms the tests print), `Errors`, `Setoid`, `Array`, `Identity`, `Maybe`, `Either`, `Compose`, `MaybeLaws`, `EitherLaws` and `Gt`.

## Model

| member | source | states |
|---|---|---|
| Maybe.Instantiate | test/Maybe/Maybe.js:31-35 | calling the type representative `Maybe` throws "Cannot instantiate Maybe" |
| Errors.CannotInstantiateInjective | test/Maybe/Maybe.js:31-35 | the "Cannot instantiate" message names the type: different types give different messages |
| Maybe.Of | test/Maybe/Maybe.js:293-302 | `of(x)` is `Just(x)`; `MaybeLaws.ApHomomorphism` and `MaybeLaws.MonadLeftIdentity` rest on it |
| Maybe.Empty | test/Maybe/Maybe.js:220-240 | the empty Maybe is Nothing, the identity of `concat` (`MaybeLaws.EmptyIsIdentity`) |
| Maybe.Equals | test/Maybe/Maybe.js:68-86 | Nothing equals only Nothing; `Just(x)` equals `Just(y)` exactly when the held type's equality says `x` equals `y`, and never Nothing (`Maybe.EqualsCases`) |
| Maybe.Concat | test/Maybe/Maybe.js:88-98 | Nothing on either side gives the other side, and `Just(a).concat(Just(b))` is `Just(a + b)` (`Maybe.ConcatCases`) |
| Maybe.Map | test/Maybe/Maybe.js:100-108 | Nothing maps to Nothing and `Just(x)` to `Just(f(x))` (`Maybe.JustBehaviour`, `Maybe.NothingBehaviour`) |
| Maybe.Ap | test/Maybe/Maybe.js:110-120 | `Just(x).ap(Just(f))` is `Just(f(x))`; a Nothing on either side gives Nothing |
| Maybe.Chain | test/Maybe/Maybe.js:122-130 | Nothing chains to Nothing and `Just(x)` to `f(x)` |
| Maybe.Alt | test/Maybe/Maybe.js:132-140 | a Just keeps itself and Nothing gives the argument |
| Maybe.Reduce | test/Maybe/Maybe.js:142-152 | Nothing gives the initial value and `Just(x)` gives `f(initial, x)` (`MaybeLaws.ReduceIsArrayReduce`) |
| Maybe.Traverse | test/Maybe/Maybe.js:154-163 | Nothing traverses to `of(Nothing)` and `Just(x)` to `f(x)` with Just mapped over it (`MaybeLaws.TraverseIntoArray`) |
| Maybe.Extend | test/Maybe/Maybe.js:165-175 | Nothing extends to Nothing and a Just `m` to `Just(f(m))` |
| Maybe.ToString | test/Maybe/Maybe.js:52-66 | Nothing prints as "Nothing" and `Just(x)` as "Just(", the form of `x`, ")" (`Maybe.ToStringInjective`) |
| Maybe.ExactlyOneVariant | test/Maybe/Maybe.js:37-50 | `isNothing` and `isJust` are complements, and `isJust` holds exactly for `Just` |
| Maybe.ToStringInjective | test/Maybe/Maybe.js:52-66 | `Nothing` prints as "Nothing"; two different Maybes never print the same when the held type's form is injective |
| Maybe.EqualsCases | test/Maybe/Maybe.js:68-86 | `equals` is false across variants, true for two Nothings, the held type's equality for two Justs, and structural equality when that equality is `==` |
| Maybe.ConcatCases | test/Maybe/Maybe.js:88-98 | Nothing on either side of `concat` gives the other side; two Justs concatenate their values |
| Maybe.JustBehaviour | test/Maybe/Just.js:21-77 | for `Just(v)`: `alt` keeps it, `ap` applies a Just function and gives Nothing for Nothing, `chain` gives `k(v)`, `map` maps, `extend` passes the whole Just, `reduce` gives `f(z, v)` |
| Maybe.NothingBehaviour | test/Maybe/Nothing.js:19-67 | for `Nothing`: `alt` gives the argument; `ap`, `chain`, `map` and `extend` give Nothing; `reduce` gives the initial value |
| MaybeLaws.EqualsReflexive | test/Maybe/Maybe.js:179-184 | `equals` is reflexive when the element equality is |
| MaybeLaws.EqualsSymmetric | test/Maybe/Maybe.js:186-192 | `equals` is symmetric when the element equality is |
| MaybeLaws.EqualsTransitive | test/Maybe/Maybe.js:194-201 | `equals` is transitive when the element equality is |
| MaybeLaws.ConcatAssociative | test/Maybe/Maybe.js:207-216 | `concat` is associative |
| MaybeLaws.EmptyIsIdentity | test/Maybe/Maybe.js:222-238 | `empty` (Nothing) is a left and right identity of `concat` |
| MaybeLaws.MapIdentity | test/Maybe/Maybe.js:244-251 | mapping the identity function gives back the Maybe, also under `equals` |
| MaybeLaws.MapComposition | test/Maybe/Maybe.js:253-262 | mapping `f ∘ g` equals mapping `g` and then `f` |
| MaybeLaws.ApComposition | test/Maybe/Maybe.js:268-277 | `S.ap(S.ap(S.map(compose, mf), mg), a)` equals `S.ap(mf, S.ap(mg, a))` |
| MaybeLaws.ApIdentity | test/Maybe/Maybe.js:283-291 | applying `of(identity)` gives back the Maybe |
| MaybeLaws.ApHomomorphism | test/Maybe/Maybe.js:293-302 | `of(f)` applied to `of(x)` is `of(f(x))` |
| MaybeLaws.ApInterchange | test/Maybe/Maybe.js:304-313 | `u` applied to `of(x)` equals `of(f => f(x))` applied to `u` |
| MaybeLaws.ChainAssociative | test/Maybe/Maybe.js:319-328 | `chain` is associative |
| MaybeLaws.MonadLeftIdentity | test/Maybe/Maybe.js:334-343 | `of(x).chain(f)` is `f(x)` |
| MaybeLaws.MonadRightIdentity | test/Maybe/Maybe.js:345-352 | chaining `of` gives back the Maybe |
| MaybeLaws.AltLaws | test/Maybe/Maybe.js:132-140 | `alt` is associative, `map` distributes over it, and Nothing is its identity on both sides |
| MaybeLaws.ReduceIsArrayReduce | test/Maybe/Maybe.js:358-366 | reducing a Maybe equals reducing the Array of its at most one element, built by reducing with append |
| MaybeLaws.ArrayView | test/Maybe/Maybe.js:100-140 | seen as Arrays of elements, `map` maps the Array, `alt` keeps the first element of the two Arrays joined, `chain` continues from the element |
| MaybeLaws.TraverseIntoArray | test/Maybe/Maybe.js:154-163 | traversing with `duplicate` into Array gives `[Just(x), Just(x)]` for `Just(x)` and `[Nothing]` for Nothing |
| MaybeLaws.TraverseNaturality | test/Maybe/Maybe.js:372-382 | Identity-to-Just after traversing into Identity equals traversing into Maybe with the transformed function |
| MaybeLaws.TraverseIdentity | test/Maybe/Maybe.js:384-391 | traversing into Array with `Array.of` gives `[u]` |
| MaybeLaws.TraverseComposition | test/Maybe/Maybe.js:393-403 | traversing into Compose(Identity)(Maybe) equals traversing into Identity and then, inside it, into Maybe |
| MaybeLaws.ExtendAssociative | test/Maybe/Maybe.js:409-418 | `extend` is associative |
| MaybeLaws.ToStringExamples | test/Maybe/Maybe.js:52-58 | `Just([1, 2, 3])` prints as "Just([1, 2, 3])" and Nothing as "Nothing" |
| Either.Instantiate | test/Either/Either.js:40-44 | calling the type representative `Either` throws "Cannot instantiate Either" |
| Either.Of | test/Either/Right.js:137-151 | `of(x)` is `Right(x)`; the Applicative and Monad laws rest on it |
| Either.Equals | test/Either/Left.js:46-58 | a Left never equals a Right; two Lefts, or two Rights, are equal exactly when that side's equality says their payloads are (`Either.EqualsCases`) |
| Either.Concat | test/Either/Left.js:40-44 | two Lefts concatenate their payloads, a Right on either side of a Left wins, two Rights concatenate (`Either.ConcatCases`) |
| Either.Map | test/Either/Left.js:71-74 | a Left passes through unchanged and `Right(x)` maps to `Right(f(x))` |
| Either.Ap | test/Either/Left.js:29-33 | a Left argument is the result; otherwise a Left receiver stays; `Right(x).ap(Right(f))` is `Right(f(x))` (`Either.LeftBehaviour`, `Either.RightBehaviour`) |
| Either.Chain | test/Either/Left.js:35-38 | a Left passes through unchanged and `Right(x)` chains to `f(x)` |
| Either.Alt | test/Either/Left.js:23-27 | a Right keeps itself and a Left gives the argument |
| Either.Reduce | test/Either/Left.js:76-79 | a Left gives the initial value and `Right(x)` gives `f(initial, x)` (`EitherLaws.ReduceIsArrayReduce`) |
| Either.Extend | test/Either/Left.js:60-69 | a Left passes through unchanged and a Right `e` extends to `Right(f(e))` |
| Either.Traverse | test/Either/Either.js:46-73 | a Left traverses to `of(Left)` of itself and `Right(x)` to `f(x)` with Right mapped over it |
| Either.Sequence | test/Either/Either.js:46-73 | sequencing is traversing with the identity function (`EitherLaws.SequenceNaturality`, `EitherLaws.SequenceIdentity`, `EitherLaws.SequenceComposition`) |
| Either.ToString | test/Either/Left.js:81-89 | `Left(x)` prints as "Left(", the form of `x`, ")" and `Right(y)` as "Right(", the form of `y`, ")" (`Either.ToStringInjective`) |
| Either.ExactlyOneVariant | test/Either/Left.js:15-21 | `isLeft` and `isRight` are complements, and `isRight` holds exactly for `Right` |
| Either.ValueRoundTrip | test/Either/Right.js:15-21 | the payload read back from `Left(x)` or `Right(y)` is the one given, and each reports its own variant |
| Either.LeftBehaviour | test/Either/Left.js:23-79 | for `Left(a)`: `alt` gives the argument, `ap` gives a Left argument and otherwise itself, `map`, `chain` and `extend` pass it through, `reduce` gives the initial value |
| Either.RightBehaviour | test/Either/Right.js:23-79 | for `Right(v)`: `alt` keeps it, `ap` gives a Left argument or applies a Right function, `map` maps, `chain` gives `k(v)`, `extend` passes the whole Right, `reduce` gives `f(z, v)` |
| Either.ConcatCases | test/Either/Left.js:40-44 | two Lefts or two Rights concatenate; a Right absorbs a Left on either side |
| Either.EqualsCases | test/Either/Left.js:46-58 | `equals` is false across variants and compares payloads by each side's equality; with `==` it is structural equality |
| Either.ToStringInjective | test/Either/Right.js:81-89 | two different Eithers never print the same when both sides' forms are injective |
| EitherLaws.EqualsReflexive | test/Either/Left.js:46-58 | `equals` is reflexive when both sides' equalities are |
| EitherLaws.EqualsSymmetric | test/Either/Left.js:46-58 | `equals` is symmetric when both sides' equalities are |
| EitherLaws.EqualsTransitive | test/Either/Left.js:46-58 | `equals` is transitive when both sides' equalities are |
| EitherLaws.ConcatAssociative | test/Either/Left.js:101-108 | `concat` is associative for every combination of Lefts and Rights |
| EitherLaws.MapIdentity | test/Either/Right.js:110-120 | mapping the identity function gives back the Either, also under `equals` |
| EitherLaws.MapComposition | test/Either/Right.js:110-120 | mapping `f ∘ g` equals mapping `g` and then `f` |
| EitherLaws.ApComposition | test/Either/Right.js:122-135 | `c.ap(b.ap(a.map(compose)))` equals `c.ap(b).ap(a)` |
| EitherLaws.LeftApChain | test/Either/Left.js:122-135 | with Lefts, both sides of the composition check give the last Left, since a Left argument wins |
| EitherLaws.ApIdentity | test/Either/Right.js:137-151 | applying `of(identity)` gives back the Either |
| EitherLaws.ApHomomorphism | test/Either/Right.js:137-151 | `of(x).ap(of(f))` is `of(f(x))` |
| EitherLaws.ApInterchange | test/Either/Right.js:137-151 | `b.ap(of(f => f(x)))` equals `of(x).ap(b)` |
| EitherLaws.ChainAssociative | test/Either/Right.js:153-160 | `chain` is associative |
| EitherLaws.MonadLeftIdentity | test/Either/Right.js:162-172 | `of(x).chain(f)` is `f(x)` |
| EitherLaws.MonadRightIdentity | test/Either/Left.js:162-172 | chaining `of` gives back the Either |
| EitherLaws.AltLaws | test/Either/Left.js:23-27 | `alt` is associative and `map` distributes over it |
| EitherLaws.ReduceIsArrayReduce | test/Either/Right.js:76-79 | reducing an Either equals reducing the Array of its elements, none for a Left and one for a Right |
| EitherLaws.ExtendAssociative | test/Either/Left.js:60-69 | `extend` is associative |
| EitherLaws.SequenceNaturality | test/Either/Either.js:48-54 | Identity-to-Just after sequencing into Identity equals sequencing the transformed Either into Maybe |
| EitherLaws.SequenceIdentity | test/Either/Either.js:56-62 | sequencing the Either of Identities into Identity gives `Identity(either)` |
| EitherLaws.SequenceComposition | test/Either/Either.js:64-71 | sequencing into Compose(Identity)(Either) equals sequencing into Identity and then, inside it, into Either |
| EitherLaws.LeftToStringExample | test/Either/Left.js:81-84 | `Left('abc')` prints as `Left("abc")` |
| EitherLaws.RightToStringExample | test/Either/Right.js:81-84 | `Right([1, 2, 3])` prints as "Right([1, 2, 3])" |
| Identity.Of | test/internal/Identity.js:27 | `Identity.of` is the constructor `Identity` itself |
| Identity.Map | test/internal/Identity.js:11-13 | `Identity(x).map(f)` is `Identity(f(x))` (`Identity.MapIdentity`, `Identity.MapComposition`) |
| Identity.Ap | test/internal/Identity.js:14-16 | `Identity(f).ap(y)` is `Identity(f(y))`: the held function is applied to the argument itself (`Identity.ApIsMapApplying`) |
| Identity.Equals | test/internal/Identity.js:17-19 | compares the held value with the other Identity's held value by the held type's equality (`Identity.EqualsComparesValues`) |
| Identity.ToString | test/internal/Identity.js:22 | prints as "Identity(", the held value's form, ")" (`Identity.ToStringInjective`) |
| Compose.OfMaybe | test/internal/Compose.js:33-35 | `of(x)` for Compose(Identity)(Maybe) is `Identity(Just(x))` wrapped in Compose (`Compose.OfThenMap`) |
| Compose.OfEither | test/internal/Compose.js:33-35 | `of(x)` for Compose(Identity)(Either) is `Identity(Right(x))` wrapped in Compose (`Compose.OfThenMap`) |
| Compose.MapMaybe | test/internal/Compose.js:13-17 | maps `f` through both layers of Compose(Identity)(Maybe), Identity outside and Maybe inside (`Compose.MapMaybeThroughBothLayers`) |
| Compose.MapEither | test/internal/Compose.js:13-17 | maps `f` through both layers of Compose(Identity)(Either) (`Compose.MapEitherThroughBothLayers`) |
| Compose.Equals | test/internal/Compose.js:21-23 | compares the held Identity with the other's by Identity's equality (`Compose.EqualsComparesValues`) |
| Compose.ToString | test/internal/Compose.js:25-29 | prints as "Compose(", F's form, ")(", G's form, ")(", the held Identity's form, ")" (`Compose.ToStringInjective`) |
| Identity.MapIdentity | test/internal/Identity.js:11-13 | mapping the identity function gives back the Identity, also under `equals` |
| Identity.MapComposition | test/internal/Identity.js:11-13 | mapping `f ∘ g` equals mapping `g` and then `f` |
| Identity.ApIsMapApplying | test/internal/Identity.js:14-16 | `ap` as written applies the held function to the argument, the same as mapping "apply to the argument" |
| Identity.EqualsComparesValues | test/internal/Identity.js:17-19 | `equals` compares the held values, and with `==` it is structural equality |
| Identity.ToStringInjective | test/internal/Identity.js:22 | two different Identities never print the same when the held type's form is injective |
| Compose.MapMaybeThroughBothLayers | test/internal/Compose.js:13-17 | `map` over Compose(Identity)(Maybe) maps the Maybe inside the Identity |
| Compose.MapEitherThroughBothLayers | test/internal/Compose.js:13-17 | `map` over Compose(Identity)(Either) maps the Either inside the Identity |
| Compose.MapMaybeLaws | test/internal/Compose.js:13-17 | Compose(Identity)(Maybe)'s `map` obeys the Functor identity and composition laws |
| Compose.MapEitherLaws | test/internal/Compose.js:13-17 | Compose(Identity)(Either)'s `map` obeys the Functor identity and composition laws |
| Compose.OfThenMap | test/internal/Compose.js:33-35 | mapping `f` over `of(x)` is `of(f(x))` for both compositions |
| Compose.EqualsComparesValues | test/internal/Compose.js:21-23 | `equals` compares the inner structures, and with `==` it is structural equality |
| Compose.ToStringInjective | test/internal/Compose.js:25-29 | two different Compose values never print the same when the inner form is injective |
| Show.UnescapeEscape | test/Either/Left.js:81-84 | the escaping inside a quoted string can be read back: unescaping an escaped string gives the string |
| Show.QuoteInjective | test/Either/Left.js:81-84 | two different strings never get the same quoted form |
| Show.ParseNatToString | test/Maybe/Maybe.js:52-58 | the decimal form of a natural number parses back to it |
| Show.IntToStringInjective | test/Maybe/Maybe.js:52-58 | two different integers never get the same decimal form |
| Show.WrapInjective | test/Maybe/Just.js:79-82 | the inner text of `Name(inner)` is determined by the whole |
| Gt.Gt | test/gt.js:13-61 | `gt` takes at most two arguments; it fails exactly when the argument check finds a violation, and reports that violation; with fewer than two arguments that pass, it is a partial application; it returns exactly when both arguments are Ord and of one kind, and then the result is `Greater` |
| Gt.CheckArgs | test/gt.js:18-44 | the argument check passes exactly when every argument is Ord and, if there are any, they share a type |
| Gt.TypeClassViolationIsFirst | test/gt.js:19-29 | a type-class violation names "Ord" and a position `p`, cites the argument at `p`, which is not Ord, and every argument before it is Ord |
| Gt.TypeVariableViolationIsFirst | test/gt.js:31-43 | a type-variable violation cites positions 1..k and the first k arguments, k ≥ 2, all Ord and sharing no type |
| Gt.TypeNames | test/gt.js:27-41 | a value's types include Null, String, Date or Number exactly for its own kind, and NonZeroFiniteNumber exactly for non-zero numbers |
| Gt.KindType | test/gt.js:39-41 | each value has a type that exactly the values of its kind belong to |
| Gt.CommonTypesMembers | test/gt.js:31-43 | a type is a candidate for `a` exactly when every supplied value belongs to it |
| Gt.CommonTypesNonEmpty | test/gt.js:31-43 | values share a type exactly when they are all of one kind |
| Gt.BelowIrreflexive | test/gt.js:55 | no string is below itself in the string order |
| Gt.BelowAsymmetric | test/gt.js:56-57 | if one string is below another, the second is not below the first |
| Gt.BelowTransitive | test/gt.js:55-57 | the string order is transitive |
| Gt.BelowTotal | test/gt.js:55-57 | of two different strings, one is below the other |
| Gt.Greater | test/gt.js:46-61 | on two values of one Ord kind, numbers compare by value, strings by the string order `Below`, Dates by their time (`Gt.GreaterStrictTotalOrder`) |
| Gt.GreaterStrictTotalOrder | test/gt.js:46-61 | `>` on one kind is irreflexive, asymmetric, transitive and total |
| Gt.GtIrreflexive | test/gt.js:47-58 | `gt(x, x)` returns false for every Ord value |
| Gt.GtAsymmetric | test/gt.js:51-60 | if `gt(a, b)` returns true then `gt(b, a)` returns false |
| Gt.GtNullExample | test/gt.js:19 | `gt(null)` fails on the Ord constraint at position 1, citing null |
| Gt.GtMixedExample | test/gt.js:31 | `gt('abc', 123)` fails on the type variable at positions 1 and 2 |
| Gt.GtSemanticsExamples | test/gt.js:46-61 | the test's integer, string and Date comparisons give its results |
| Gt.ShowValue | test/gt.js:27-41 | a value as the message prints it: `null`, a string in double quotes with escapes, a number in decimal |
| Gt.EntryLine | test/gt.js:39-41 | an entry is the position, `)`, two spaces, the value's form, ` :: ` and the value's types joined by `, ` |
| Gt.Carets | test/gt.js:36 | the caret line for k positions ends just after the column of position k (`Gt.CaretsAtArgColumns`) |
| Gt.CaretsAtArgColumns | test/gt.js:36 | the caret line has a `^` exactly at the column of each cited position and spaces elsewhere |
| Gt.ArgColumnsInSignature | test/gt.js:23-24 | each argument position's column holds an `a` of the signature, and `Ord a` sits at columns 6 to 10 |
| Gt.TypeClassCaretsUnderSignature | test/gt.js:23-25 | a type-class message's carets stand under `Ord a` and under the offending position's `a`, with its number below |
| Gt.Numbers | test/gt.js:37 | the position numbers 1 .. k, each in the column of its caret |
| Gt.EntryLines | test/gt.js:38-42 | one entry per value, numbered from 1, each followed by an empty line; 2k lines for k values |
| Gt.Renderable | test/gt.js:18-44 | a violation `gt`'s signature can point at: a position within its two arguments, or up to two values |
| Gt.GtFailureRenderable | test/gt.js:18-44 | every violation `gt` reports can be rendered against its signature |
| Gt.TypeClassLines | test/gt.js:21-29 | a type-class message has nine lines and starts with its title, an empty line and the signature |
| Gt.TypeVariableLines | test/gt.js:33-43 | a type-variable message has 7 + 2k lines for k values and ends with the explanation |
| Gt.Render | test/gt.js:18-44 | for a violation within `gt`'s arity (`Gt.Renderable`), a message starts with the title of its kind, an empty line and the signature; it has nine lines for a type-class violation, and 7 + 2k lines ending in the explanation for k values that share no type |
| Gt.Message | test/gt.js:21-29 | the message text is each line followed by a newline (`Gt.MessageConcat`) |
| Gt.MessageConcat | test/gt.js:19-29 | the message text of consecutive blocks of lines is the text of each block in turn, and one line gives that line and a newline |
| Gt.NullEntryExample | test/gt.js:27 | the entry for `null` at position 1 is `1)  null :: Null` |
| Gt.RenderNullExample | test/gt.js:19-29 | the lines of `gt(null)`'s message are exactly the test's |
| Gt.QuoteExample | test/gt.js:39 | `'abc'` is shown as `"abc"` |
| Gt.StringEntryExample | test/gt.js:39 | the entry for `'abc'` at position 1 is `1)  "abc" :: String` |
| Gt.NumberEntryExample | test/gt.js:41 | the entry for `123` at position 2 lists Number, FiniteNumber, NonZeroFiniteNumber, Integer and ValidNumber |
| Gt.TwoPositionsExample | test/gt.js:36-37 | the carets and numbers under two positions are the test's |
| Gt.MixedEntriesExample | test/gt.js:39-42 | the two entries of `gt('abc', 123)`'s message, each followed by an empty line |
| Gt.RenderMixedExample | test/gt.js:31-43 | the lines of `gt('abc', 123)`'s message are exactly the test's |

## Left out

- Floating point: numbers are integers, so `-0` is `0` here. With that reading, the `-0` cases of `gt` (test/gt.js:48-50) give false as the test expects, the same as `gt(0, 0)` in `Gt.GtSemanticsExamples`. `NaN` and `Math.sqrt` are not modelled, and neither are the value-based equality cases that tell `0` from `-0` or make `NaN` equal itself (test/Maybe/Maybe.js:80-83).
- Boxed values (`new Number(42)`) and equality across JavaScript types (`Left(42)` against `Left('42')`): each Either or Maybe holds values of one Dafny type.
- Reflection: the `.length` arity checks, the identity of the unprefixed aliases with the `fantasy-land/` methods, `inspect` as an alias of `toString`, and `S.Just.toString()`'s signature text. Each alias is the same function here; `@@type` is only the constant `Tag`.
- The property-based test runner (jsverify generators and mocha): the laws are proved for all values instead of sampled.
- Dispatch through sanctuary-type-classes (`Z.map`, `Z.ap`, `Z.of` choosing a method by type): each call site names the instance it dispatches to.
- Compose.ap (test/internal/Compose.js:18-20): no law in these tests calls it, and it needs `Z.ap` curried over an unknown inner applicative.
- Maybe.Concat, Either.Concat: defined for held strings and arrays (`seq`), not for arbitrary semigroups.
- Gt: defined for at most two arguments (`requires |args| <= Arity`); what the library does with a third argument is outside these tests.
- Gt.ShowValue: a Date's printed form is a parameter (`showDate`); no Date is printed in these tests.
- Gt.Below: compares characters as Unicode scalar values, whereas JavaScript compares UTF-16 code units; the two agree below U+10000.
- Gt.TypeNames: numbers are unbounded integers, so every number is a FiniteNumber, an Integer and a ValidNumber; the safe-integer bound and non-finite numbers are not modelled.
- Show.Escape: lone UTF-16 surrogates have no counterpart in Dafny strings, so their `\u` escapes are not modelled.
- The general signature checker (sanctuary-def) is modelled only as far as `gt`'s signature needs it: one type class, `Ord`, on one type variable.
