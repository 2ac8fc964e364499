/** The checked comparison `gt :: Ord a => a -> a -> Boolean` (test/gt.js):
    each argument is checked as it is supplied, first against the `Ord`
    type-class constraint and then against the type variable `a` it shares
    with the earlier arguments; once both arguments pass, the result is
    strict "greater than". */
module Gt {
  import Show

  /** `S.gt.length`: gt is a binary function. */
  const Arity := 2

  /** The signature the diagnostics quote. */
  const Signature := "gt :: Ord a => a -> a -> Boolean"

  /** The runtime values the comparison is exercised on. Numbers are the
      integers; `-0` is the integer 0. A Date is its time value in ms. */
  datatype Value = Null | Str(s: string) | Num(n: int) | Date(time: int)

  /** The types a diagnostic can name for these values. */
  datatype TypeName =
    | NullType | StringType | DateType
    | NumberType | FiniteNumberType | NonZeroFiniteNumberType | IntegerType | ValidNumberType

  function Name(t: TypeName): string {
    match t
    case NullType => "Null"
    case StringType => "String"
    case DateType => "Date"
    case NumberType => "Number"
    case FiniteNumberType => "FiniteNumber"
    case NonZeroFiniteNumberType => "NonZeroFiniteNumber"
    case IntegerType => "Integer"
    case ValidNumberType => "ValidNumber"
  }

  /** The types a value belongs to, in the order the diagnostics list them:
      a number is a Number, a FiniteNumber, a NonZeroFiniteNumber unless it
      is zero, an Integer and a ValidNumber. */
  function TypeNames(v: Value): (names: seq<TypeName>)
    ensures |names| >= 1
    ensures NullType in names <==> v.Null?
    ensures StringType in names <==> v.Str?
    ensures DateType in names <==> v.Date?
    ensures NumberType in names <==> v.Num?
    ensures NonZeroFiniteNumberType in names <==> v.Num? && v.n != 0
  {
    match v
    case Null => [NullType]
    case Str(_) => [StringType]
    case Date(_) => [DateType]
    case Num(n) =>
      [NumberType, FiniteNumberType] + (if n != 0 then [NonZeroFiniteNumberType] else [])
      + [IntegerType, ValidNumberType]
  }

  /** Strings, numbers and dates are Ord; null is not. */
  predicate SatisfiesOrd(v: Value) {
    !v.Null?
  }

  /** Two values are of the same kind (built by the same constructor). */
  predicate SameKind(a: Value, b: Value) {
    a.Null? == b.Null? && a.Str? == b.Str? && a.Num? == b.Num? && a.Date? == b.Date?
  }

  /** The types of `v`, as a set. */
  function TypeSet(v: Value): set<TypeName> {
    match v
    case Null => {NullType}
    case Str(_) => {StringType}
    case Date(_) => {DateType}
    case Num(n) =>
      {NumberType, FiniteNumberType, IntegerType, ValidNumberType} + (if n != 0 then {NonZeroFiniteNumberType} else {})
  }

  /** The set and the list of a value's types hold the same types. */
  lemma TypeSetMembers(v: Value, t: TypeName)
    ensures t in TypeSet(v) <==> t in TypeNames(v)
  {
  }

  /** The types every one of `vs` belongs to: the candidates left for `a`
      once `vs` have been supplied. */
  function CommonTypes(vs: seq<Value>): set<TypeName>
    requires vs != []
  {
    if |vs| == 1 then TypeSet(vs[0])
    else CommonTypes(vs[..|vs| - 1]) * TypeSet(vs[|vs| - 1])
  }

  /** `CommonTypes` intersects the type sets of all of `vs`. */
  lemma {:induction false} CommonTypesInTypeSets(vs: seq<Value>, t: TypeName)
    requires vs != []
    ensures t in CommonTypes(vs) <==> forall i | 0 <= i < |vs| :: t in TypeSet(vs[i])
  {
    if |vs| > 1 {
      var prefix := vs[..|vs| - 1];
      CommonTypesInTypeSets(prefix, t);
      assert forall i | 0 <= i < |prefix| :: prefix[i] == vs[i];
    }
  }

  /** A type is a candidate exactly when every supplied value belongs to it. */
  lemma CommonTypesMembers(vs: seq<Value>, t: TypeName)
    requires vs != []
    ensures t in CommonTypes(vs) <==> forall i | 0 <= i < |vs| :: t in TypeNames(vs[i])
  {
    CommonTypesInTypeSets(vs, t);
    forall i | 0 <= i < |vs|
      ensures t in TypeSet(vs[i]) <==> t in TypeNames(vs[i])
    {
      TypeSetMembers(vs[i], t);
    }
  }

  /** The type every value of `v`'s kind belongs to. */
  function KindType(v: Value): (t: TypeName)
    ensures t in TypeNames(v)
    ensures forall w :: t in TypeNames(w) <==> SameKind(v, w)
  {
    match v
    case Null => NullType
    case Str(_) => StringType
    case Num(_) => NumberType
    case Date(_) => DateType
  }

  /** A type two values share forces them to be of one kind. */
  lemma KindOfCommonType(a: Value, b: Value, t: TypeName)
    requires t in TypeNames(a) && t in TypeNames(b)
    ensures SameKind(a, b)
  {
  }

  /** Values share a type exactly when they are all of one kind. */
  lemma CommonTypesNonEmpty(vs: seq<Value>)
    requires vs != []
    ensures CommonTypes(vs) != {} <==> forall i | 0 <= i < |vs| :: SameKind(vs[0], vs[i])
  {
    if CommonTypes(vs) != {} {
      var t :| t in CommonTypes(vs);
      CommonTypesMembers(vs, t);
      forall i | 0 <= i < |vs|
        ensures SameKind(vs[0], vs[i])
      {
        KindOfCommonType(vs[0], vs[i], t);
      }
    }
    if forall i | 0 <= i < |vs| :: SameKind(vs[0], vs[i]) {
      CommonTypesMembers(vs, KindType(vs[0]));
    }
  }

  /** 1-based positions 1 .. k. */
  function Positions(k: nat): seq<nat> {
    seq(k, i => i + 1)
  }

  datatype Violation =
    | TypeClassConstraint(typeClass: string, position: nat, value: Value)
    | TypeVariableConstraint(positions: seq<nat>, values: seq<Value>)

  datatype CheckResult = Passed | Violated(violation: Violation)

  /** Every value satisfies Ord. */
  predicate AllOrd(vs: seq<Value>) {
    forall i | 0 <= i < |vs| :: SatisfiesOrd(vs[i])
  }

  /** Checks the supplied arguments left to right, stopping at the first
      violation: an argument that is not Ord, or one that leaves `a` with
      no candidate type. The check passes exactly when every argument is
      Ord and the arguments share a type. */
  function CheckArgs(args: seq<Value>): (r: CheckResult)
    ensures r.Passed? <==> AllOrd(args) && (args != [] ==> CommonTypes(args) != {})
    decreases |args|
  {
    if args == [] then Passed
    else
      var prefix := args[..|args| - 1];
      var v := args[|args| - 1];
      assert !AllOrd(prefix) ==> !AllOrd(args);
      match CheckArgs(prefix)
      case Violated(e) => Violated(e)
      case Passed =>
        assert AllOrd(args) <==> SatisfiesOrd(v);
        if !SatisfiesOrd(v) then Violated(TypeClassConstraint("Ord", |args|, v))
        else if CommonTypes(args) == {} then Violated(TypeVariableConstraint(Positions(|args|), args))
        else Passed
  }

  /** A type-class violation cites the first argument that is not Ord. */
  lemma {:induction false} TypeClassViolationIsFirst(args: seq<Value>)
    ensures CheckArgs(args).Violated? && CheckArgs(args).violation.TypeClassConstraint? ==>
      var p := CheckArgs(args).violation.position;
      CheckArgs(args).violation.typeClass == "Ord" && 1 <= p <= |args|
      && CheckArgs(args).violation.value == args[p - 1]
      && !SatisfiesOrd(args[p - 1]) && AllOrd(args[..p - 1])
  {
    if args != [] {
      var prefix := args[..|args| - 1];
      TypeClassViolationIsFirst(prefix);
      match CheckArgs(prefix)
      case Violated(e) =>
        assert e.TypeClassConstraint? ==> args[..e.position - 1] == prefix[..e.position - 1];
      case Passed =>
    }
  }

  /** A type-variable violation cites positions 1 .. k, where the k-th
      argument is the first to leave `a` without a candidate type. */
  lemma {:induction false} TypeVariableViolationIsFirst(args: seq<Value>)
    ensures CheckArgs(args).Violated? && CheckArgs(args).violation.TypeVariableConstraint? ==>
      var k := |CheckArgs(args).violation.values|;
      2 <= k <= |args| && CheckArgs(args).violation.values == args[..k]
      && CheckArgs(args).violation.positions == Positions(k)
      && AllOrd(args[..k]) && CommonTypes(args[..k]) == {}
  {
    if args != [] {
      var prefix := args[..|args| - 1];
      var v := args[|args| - 1];
      assert args[..|args|] == args;
      TypeVariableViolationIsFirst(prefix);
      match CheckArgs(prefix)
      case Violated(e) =>
        assert e.TypeVariableConstraint? ==> args[..|e.values|] == prefix[..|e.values|];
      case Passed =>
        if |args| == 1 {
          assert TypeNames(v)[0] in CommonTypes(args);
        }
        if SatisfiesOrd(v) {
          assert AllOrd(args) by {
            forall i | 0 <= i < |args| ensures SatisfiesOrd(args[i]) {
              if i < |prefix| {
                assert args[i] == prefix[i];
              }
            }
          }
        }
    }
  }

  /** Strict lexicographic order of strings, by character code. */
  predicate Below(x: string, y: string) {
    if y == [] then false
    else if x == [] then true
    else if x[0] != y[0] then x[0] < y[0]
    else Below(x[1..], y[1..])
  }

  lemma {:induction false} BelowIrreflexive(x: string)
    ensures !Below(x, x)
  {
    if x != [] {
      BelowIrreflexive(x[1..]);
    }
  }

  lemma {:induction false} BelowAsymmetric(x: string, y: string)
    ensures Below(x, y) ==> !Below(y, x)
  {
    if x != [] && y != [] && x[0] == y[0] {
      BelowAsymmetric(x[1..], y[1..]);
    }
  }

  lemma {:induction false} BelowTransitive(x: string, y: string, z: string)
    ensures Below(x, y) && Below(y, z) ==> Below(x, z)
  {
    if x != [] && y != [] && z != [] && x[0] == y[0] && y[0] == z[0] {
      BelowTransitive(x[1..], y[1..], z[1..]);
    }
  }

  lemma {:induction false} BelowTotal(x: string, y: string)
    ensures x == y || Below(x, y) || Below(y, x)
  {
    if x != [] && y != [] && x[0] == y[0] {
      BelowTotal(x[1..], y[1..]);
      if x[1..] == y[1..] {
        assert x == [x[0]] + x[1..] && y == [y[0]] + y[1..];
      }
    }
  }

  /** `a > b` on two Ord values of one kind: numbers and dates numerically,
      strings lexicographically. */
  predicate Greater(a: Value, b: Value)
    requires SameKind(a, b) && SatisfiesOrd(a)
  {
    match a
    case Num(x) => x > b.n
    case Date(t) => t > b.time
    case Str(s) => Below(b.s, s)
  }

  /** `Greater` is a strict total order on each kind. */
  lemma GreaterStrictTotalOrder(a: Value, b: Value, c: Value)
    requires SameKind(a, b) && SameKind(b, c) && SatisfiesOrd(a)
    ensures !Greater(a, a)
    ensures Greater(a, b) ==> !Greater(b, a)
    ensures Greater(a, b) && Greater(b, c) ==> Greater(a, c)
    ensures a == b || Greater(a, b) || Greater(b, a)
  {
    if a.Str? {
      BelowIrreflexive(a.s);
      BelowAsymmetric(b.s, a.s);
      BelowTransitive(c.s, b.s, a.s);
      BelowTotal(a.s, b.s);
    }
  }

  /** The result of applying gt to the arguments supplied so far. */
  datatype Outcome = Failed(violation: Violation) | Partial(supplied: seq<Value>) | Returned(result: bool)

  /** `S.gt` applied to `args` (curried: fewer than two arguments give a
      function awaiting the rest). */
  function Gt(args: seq<Value>): (r: Outcome)
    requires |args| <= Arity
    ensures r.Failed? <==> CheckArgs(args).Violated?
    ensures r.Failed? ==> r.violation == CheckArgs(args).violation
    ensures r.Partial? <==> CheckArgs(args).Passed? && |args| < Arity
    ensures r.Partial? ==> r.supplied == args
    ensures r.Returned? <==>
      |args| == 2 && SatisfiesOrd(args[0]) && SatisfiesOrd(args[1]) && SameKind(args[0], args[1])
    ensures r.Returned? ==> (r.result <==> Greater(args[0], args[1]))
  {
    var checked := CheckArgs(args);
    if |args| == 2 then
      CommonTypesNonEmpty(args);
      if checked.Violated? then Failed(checked.violation) else Returned(Greater(args[0], args[1]))
    else if checked.Violated? then Failed(checked.violation)
    else Partial(args)
  }

  /** Comparing a value with itself is never true. */
  lemma GtIrreflexive(v: Value)
    requires SatisfiesOrd(v)
    ensures Gt([v, v]) == Returned(false)
  {
    GreaterStrictTotalOrder(v, v, v);
  }

  /** Swapping the arguments of a true comparison gives false. */
  lemma GtAsymmetric(a: Value, b: Value)
    requires Gt([a, b]) == Returned(true)
    ensures Gt([b, a]) == Returned(false)
  {
    GreaterStrictTotalOrder(a, b, b);
  }

  /** `gt(null)` fails on the Ord constraint at position 1. */
  lemma GtNullExample()
    ensures Gt([Null]) == Failed(TypeClassConstraint("Ord", 1, Null))
  {
  }

  /** `gt('abc', 123)` fails on the type variable at positions 1 and 2. */
  lemma GtMixedExample()
    ensures Gt([Str("abc"), Num(123)]) == Failed(TypeVariableConstraint([1, 2], [Str("abc"), Num(123)]))
  {
    var args := [Str("abc"), Num(123)];
    assert args[..1] == [Str("abc")];
    assert CheckArgs([Str("abc")]) == Passed by {
      assert StringType in TypeSet(Str("abc"));
    }
    CommonTypesNonEmpty(args);
    assert Positions(2) == [1, 2];
  }

  /** The `> semantics` cases. */
  lemma GtSemanticsExamples()
    ensures Gt([Num(1), Num(0)]) == Returned(true) && Gt([Num(0), Num(-1)]) == Returned(true)
    ensures Gt([Num(0), Num(1)]) == Returned(false) && Gt([Num(-1), Num(0)]) == Returned(false)
    ensures Gt([Num(0), Num(0)]) == Returned(false)
    ensures Gt([Str("z"), Str("a")]) == Returned(true) && Gt([Str("a"), Str("z")]) == Returned(false)
    ensures Gt([Str("a"), Str("a")]) == Returned(false)
    ensures Gt([Date(1), Date(0)]) == Returned(true) && Gt([Date(0), Date(1)]) == Returned(false)
    ensures Gt([Date(0), Date(0)]) == Returned(false)
  {
  }

  // Diagnostics

  function Spaces(n: nat): (s: string)
    ensures |s| == n && forall i | 0 <= i < n :: s[i] == ' '
  {
    if n == 0 then "" else " " + Spaces(n - 1)
  }

  /** The column of the `a` for argument position `p` in the signature. */
  function ArgColumn(p: nat): nat
    requires p >= 1
  {
    15 + 5 * (p - 1)
  }

  /** A value as `Z.toString` writes it; the Date form is supplied. */
  function ShowValue(v: Value, showDate: int -> string): string {
    match v
    case Null => "null"
    case Str(s) => Show.Quote(s)
    case Num(n) => Show.IntToString(n)
    case Date(t) => showDate(t)
  }

  /** Appends `, <name>` for each of `ts`. */
  function AppendNames(line: string, ts: seq<TypeName>): string
    decreases |ts|
  {
    if ts == [] then line else AppendNames(line + ", " + Name(ts[0]), ts[1..])
  }

  /** `p)  <value> :: <type>, <type>, ...`. */
  function EntryLine(p: nat, v: Value, showDate: int -> string): string {
    var names := TypeNames(v);
    AppendNames(Show.NatToString(p) + ")  " + ShowValue(v, showDate) + " :: " + Name(names[0]), names[1..])
  }

  /** Carets under the `a` of positions 1 .. k. */
  function Carets(k: nat): (s: string)
    requires k >= 1
    ensures |s| == ArgColumn(k) + 1
  {
    if k == 1 then Spaces(15) + "^" else Carets(k - 1) + Spaces(4) + "^"
  }

  /** The position numbers 1 .. k under their carets (one digit each). */
  function Numbers(k: nat): string
    requires 1 <= k <= 9
  {
    if k == 1 then Spaces(15) + "1" else Numbers(k - 1) + Spaces(4) + Show.NatToString(k)
  }

  /** The entry of each of `values`, numbered from `from`, each followed by
      an empty line. */
  function EntryLines(values: seq<Value>, from: nat, showDate: int -> string): (lines: seq<string>)
    ensures |lines| == 2 * |values|
    decreases |values|
  {
    if values == [] then []
    else [EntryLine(from, values[0], showDate), ""] + EntryLines(values[1..], from + 1, showDate)
  }

  const TypeClassTitle := "Type-class constraint violation"
  const TypeVariableTitle := "Type-variable constraint violation"
  const NoCommonType :=
    "Since there is no type of which all the" + " above values are members, the" + " type-variable constraint has been violated."

  /** The lines for a value at position `p` that is not of `typeClass`:
      carets under the constraint and under the `a` at `p`. */
  function TypeClassLines(typeClass: string, p: nat, v: Value, showDate: int -> string): (lines: seq<string>)
    requires 1 <= p <= Arity
    ensures |lines| == 9 && lines[0] == TypeClassTitle && lines[1] == "" && lines[2] == Signature
  {
    var position := Show.NatToString(p);
    [ TypeClassTitle,
      "",
      Signature,
      Spaces(6) + "^^^^^" + Spaces(ArgColumn(p) - 11) + "^",
      Spaces(ArgColumn(p)) + position,
      "",
      EntryLine(p, v, showDate),
      "",
      "\U{2018}gt\U{2019} requires \U{2018}a\U{2019} to satisfy the " + typeClass + " type-class constraint;"
      + " the value at position " + position + " does not." ]
  }

  /** The lines for values that share no type: carets under the `a` of every
      position, one entry per value. */
  function TypeVariableLines(values: seq<Value>, showDate: int -> string): (lines: seq<string>)
    requires 1 <= |values| <= Arity
    ensures |lines| == 7 + 2 * |values| && lines[0] == TypeVariableTitle && lines[1] == "" && lines[2] == Signature
    ensures lines[|lines| - 1] == NoCommonType
  {
    [TypeVariableTitle, "", Signature, Carets(|values|), Numbers(|values|), ""]
    + EntryLines(values, 1, showDate)
    + [NoCommonType]
  }

  /** A violation `gt`'s signature can point at: a position, or a number of
      values, within its arity. */
  predicate Renderable(e: Violation) {
    match e
    case TypeClassConstraint(_, p, _) => 1 <= p <= Arity
    case TypeVariableConstraint(_, values) => 1 <= |values| <= Arity
  }

  /** Every violation `gt` reports can be rendered. */
  lemma GtFailureRenderable(args: seq<Value>)
    requires |args| <= Arity && Gt(args).Failed?
    ensures Renderable(Gt(args).violation)
  {
    TypeClassViolationIsFirst(args);
    TypeVariableViolationIsFirst(args);
  }

  /** The caret line for k positions has a `^` exactly at the column of
      each of positions 1 .. k, and a space everywhere else. */
  lemma {:induction false} CaretsAtArgColumns(k: nat)
    requires k >= 1
    ensures forall j | 0 <= j < |Carets(k)| ::
      Carets(k)[j] == if j >= 15 && (j - 15) % 5 == 0 then '^' else ' '
  {
    if k > 1 {
      CaretsAtArgColumns(k - 1);
      var c := Carets(k - 1);
      assert Carets(k) == c + Spaces(4) + "^";
      forall j | 0 <= j < |Carets(k)|
        ensures Carets(k)[j] == if j >= 15 && (j - 15) % 5 == 0 then '^' else ' '
      {
        if j < |c| {
          assert Carets(k)[j] == c[j];
        } else if j < |c| + 4 {
          assert Carets(k)[j] == Spaces(4)[j - |c|];
        }
      }
    }
  }

  /** The column of each argument position holds an `a` of the signature,
      and the constraint `Ord a` sits at columns 6 .. 10. */
  lemma ArgColumnsInSignature()
    ensures forall p | 1 <= p <= Arity :: Signature[ArgColumn(p)] == 'a'
    ensures Signature[6..11] == "Ord a"
  {
    forall p | 1 <= p <= Arity ensures Signature[ArgColumn(p)] == 'a' {
      assert p == 1 || p == 2;
    }
    assert Signature[6] == 'O' && Signature[7] == 'r' && Signature[8] == 'd';
    assert Signature[9] == ' ' && Signature[10] == 'a';
  }

  /** In a type-class violation the caret line marks `Ord a` and the `a`
      of the offending position, and the number stands under that caret. */
  lemma TypeClassCaretsUnderSignature(typeClass: string, p: nat, v: Value, showDate: int -> string)
    requires 1 <= p <= Arity
    ensures var lines := TypeClassLines(typeClass, p, v, showDate);
      lines[3][6..11] == "^^^^^" && Signature[6..11] == "Ord a"
      && |lines[3]| == ArgColumn(p) + 1 && lines[3][ArgColumn(p)] == '^' && Signature[ArgColumn(p)] == 'a'
      && lines[4][ArgColumn(p)..] == Show.NatToString(p)
  {
    var lines := TypeClassLines(typeClass, p, v, showDate);
    assert lines[3] == Spaces(6) + "^^^^^" + Spaces(ArgColumn(p) - 11) + "^";
    assert lines[3][6..11] == "^^^^^";
    assert lines[4] == Spaces(ArgColumn(p)) + Show.NatToString(p);
    ArgColumnsInSignature();
  }

  /** The lines of the TypeError message for a violation, as the library
      formats it for `gt`'s signature: a title, the signature with carets
      and position numbers under the offending parts, one entry per cited
      value, and an explanation. */
  function Render(e: Violation, showDate: int -> string): (lines: seq<string>)
    requires Renderable(e)
    ensures |lines| >= 7 && lines[1] == "" && lines[2] == Signature
    ensures lines[0] == (if e.TypeClassConstraint? then TypeClassTitle else TypeVariableTitle)
    ensures e.TypeClassConstraint? ==> |lines| == 9
    ensures e.TypeVariableConstraint? ==> |lines| == 7 + 2 * |e.values| && lines[|lines| - 1] == NoCommonType
  {
    match e
    case TypeClassConstraint(typeClass, p, v) => TypeClassLines(typeClass, p, v, showDate)
    case TypeVariableConstraint(_, values) => TypeVariableLines(values, showDate)
  }

  /** The message text: each line followed by a newline. */
  function Message(lines: seq<string>): string {
    if lines == [] then "" else lines[0] + "\n" + Message(lines[1..])
  }

  /** The text of consecutive blocks of lines is the text of each block in
      turn, so a message splits at any line: one line gives that line and a
      newline. */
  lemma {:induction false} MessageConcat(a: seq<string>, b: seq<string>)
    ensures Message(a + b) == Message(a) + Message(b)
    ensures |a| == 1 ==> Message(a) == a[0] + "\n"
  {
    if a != [] {
      assert (a + b)[0] == a[0] && (a + b)[1..] == a[1..] + b;
      MessageConcat(a[1..], b);
      var head := a[0] + "\n";
      assert head + (Message(a[1..]) + Message(b)) == (head + Message(a[1..])) + Message(b);
      if |a| == 1 {
        assert a[1..] == [];
      }
    } else {
      assert a + b == b;
    }
  }

  /** The entry of `null` at position 1. */
  lemma NullEntryExample(showDate: int -> string)
    ensures EntryLine(1, Null, showDate) == "1" + ")  " + "null" + " :: " + "Null"
  {
    assert Show.NatToString(1) == "1";
  }

  /** The message `gt(null)` throws: the carets fall under `Ord` and the
      first `a`. */
  lemma RenderNullExample(showDate: int -> string)
    ensures Render(TypeClassConstraint("Ord", 1, Null), showDate) ==
      [ "Type-class constraint violation",
        "",
        "gt :: Ord a => a -> a -> Boolean",
        "      " + "^^^^^" + "    " + "^",
        "               " + "1",
        "",
        "1" + ")  " + "null" + " :: " + "Null",
        "",
        "\U{2018}gt\U{2019} requires \U{2018}a\U{2019} to satisfy the " + "Ord" + " type-class constraint;"
        + " the value at position " + "1" + " does not." ]
  {
    NullEntryExample(showDate);
    assert Show.NatToString(1) == "1";
    assert Spaces(6) == "      " && Spaces(4) == "    " && Spaces(15) == "               ";
  }

  /** `'abc'` is shown with double quotes. */
  lemma QuoteExample(showDate: int -> string)
    ensures ShowValue(Str("abc"), showDate) == "\"abc\""
  {
    assert Show.Escape("c") == "c";
    assert Show.Escape("bc") == "bc";
    assert Show.Escape("abc") == "abc";
  }

  /** The entry of `'abc'` at position 1. */
  lemma StringEntryExample(showDate: int -> string)
    ensures EntryLine(1, Str("abc"), showDate) == "1" + ")  " + "\"abc\"" + " :: " + "String"
  {
    QuoteExample(showDate);
    assert Show.NatToString(1) == "1";
    assert TypeNames(Str("abc")) == [StringType];
  }

  /** The entry of `123` at position 2: every numeric type it belongs to. */
  lemma NumberEntryExample(showDate: int -> string)
    ensures EntryLine(2, Num(123), showDate) ==
      "2" + ")  " + "123" + " :: " + "Number" + ", " + "FiniteNumber" + ", " + "NonZeroFiniteNumber"
      + ", " + "Integer" + ", " + "ValidNumber"
  {
    assert Show.NatToString(2) == "2";
    assert Show.NatToString(123) == "123" by {
      assert Show.NatToString(12) == "12";
    }
    assert ShowValue(Num(123), showDate) == "123";
    var names := TypeNames(Num(123));
    assert names == [NumberType, FiniteNumberType, NonZeroFiniteNumberType, IntegerType, ValidNumberType];
    assert names[1..][1..] == names[2..] && names[2..][1..] == names[3..] && names[3..][1..] == names[4..];
    assert names[4..][1..] == [];
  }

  /** The carets and numbers under both positions of the signature. */
  lemma TwoPositionsExample()
    ensures Carets(2) == "               " + "^" + "    " + "^"
    ensures Numbers(2) == "               " + "1" + "    " + "2"
  {
    assert Show.NatToString(2) == "2";
    assert Spaces(4) == "    " && Spaces(15) == "               ";
  }

  /** The entries of `gt('abc', 123)`'s message, each followed by an empty line. */
  lemma MixedEntriesExample(showDate: int -> string)
    ensures EntryLines([Str("abc"), Num(123)], 1, showDate) ==
      [ "1" + ")  " + "\"abc\"" + " :: " + "String",
        "",
        "2" + ")  " + "123" + " :: " + "Number" + ", " + "FiniteNumber" + ", " + "NonZeroFiniteNumber"
        + ", " + "Integer" + ", " + "ValidNumber",
        "" ]
  {
    var values := [Str("abc"), Num(123)];
    assert values[1..] == [Num(123)] && values[1..][1..] == [];
    assert EntryLines(values, 1, showDate)
        == [EntryLine(1, Str("abc"), showDate), "", EntryLine(2, Num(123), showDate), ""];
    StringEntryExample(showDate);
    NumberEntryExample(showDate);
  }

  /** The message `gt('abc', 123)` throws: the header, the two entries and
      the explanation. */
  lemma RenderMixedExample(showDate: int -> string)
    ensures Render(TypeVariableConstraint([1, 2], [Str("abc"), Num(123)]), showDate) ==
      [ "Type-variable constraint violation",
        "",
        "gt :: Ord a => a -> a -> Boolean",
        "               " + "^" + "    " + "^",
        "               " + "1" + "    " + "2",
        "" ]
      + [ "1" + ")  " + "\"abc\"" + " :: " + "String",
          "",
          "2" + ")  " + "123" + " :: " + "Number" + ", " + "FiniteNumber" + ", " + "NonZeroFiniteNumber"
          + ", " + "Integer" + ", " + "ValidNumber",
          "" ]
      + [ "Since there is no type of which all the" + " above values are members, the"
          + " type-variable constraint has been violated." ]
  {
    MixedEntriesExample(showDate);
    TwoPositionsExample();
  }
}
