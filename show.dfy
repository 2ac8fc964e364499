/** Canonical text forms of contained values, as `toString` and `inspect`
    render them: integers in decimal, strings JSON-quoted, arrays bracketed.
    The forms are proved injective, so a rendered value identifies the value. */
module Show {

  predicate IsDigit(c: char) { '0' <= c <= '9' }

  predicate AllDigits(s: string) {
    forall i | 0 <= i < |s| :: IsDigit(s[i])
  }

  function DigitChar(d: nat): (c: char)
    requires d < 10
    ensures IsDigit(c) && c as int - '0' as int == d
  {
    ('0' as int + d) as char
  }

  function DigitValue(c: char): nat
    requires IsDigit(c)
  {
    c as int - '0' as int
  }

  /** Decimal digits of `n`, most significant first, with no leading zero. */
  function NatToString(n: nat): (s: string)
    ensures |s| >= 1 && AllDigits(s)
    ensures s[0] == '0' <==> n == 0
    ensures n == 0 ==> s == "0"
  {
    if n < 10 then [DigitChar(n)] else NatToString(n / 10) + [DigitChar(n % 10)]
  }

  /** Reads back a string of decimal digits. */
  function ParseNat(s: string): nat
    requires AllDigits(s)
  {
    if s == [] then 0 else ParseNat(s[..|s| - 1]) * 10 + DigitValue(s[|s| - 1])
  }

  lemma {:induction false} ParseNatToString(n: nat)
    ensures ParseNat(NatToString(n)) == n
  {
    if n >= 10 {
      var s := NatToString(n);
      assert s[..|s| - 1] == NatToString(n / 10);
      ParseNatToString(n / 10);
    }
  }

  lemma NatToStringInjective(a: nat, b: nat)
    ensures NatToString(a) == NatToString(b) ==> a == b
  {
    ParseNatToString(a);
    ParseNatToString(b);
  }

  /** A JavaScript integer in decimal: a minus sign for negative values. */
  function IntToString(i: int): (s: string)
    ensures |s| >= 1
    ensures s[0] == '-' <==> i < 0
  {
    if i < 0 then "-" + NatToString(-i) else NatToString(i)
  }

  lemma IntToStringInjective(a: int, b: int)
    ensures IntToString(a) == IntToString(b) ==> a == b
  {
    if IntToString(a) == IntToString(b) {
      if a < 0 {
        assert IntToString(a)[1..] == NatToString(-a);
        assert IntToString(b)[1..] == NatToString(-b);
        NatToStringInjective(-a, -b);
      } else {
        NatToStringInjective(a, b);
      }
    }
  }

  function HexDigit(d: nat): (c: char)
    requires d < 16
  {
    "0123456789abcdef"[d]
  }

  function HexValue(c: char): (v: nat)
    ensures v < 16
  {
    if '0' <= c <= '9' then c as int - '0' as int
    else if 'a' <= c <= 'f' then c as int - 'a' as int + 10
    else 0
  }

  lemma HexValueOfDigit(d: nat)
    requires d < 16
    ensures HexValue(HexDigit(d)) == d
  {
  }

  /** How `JSON.stringify` writes one character inside a string literal:
      quote and backslash escaped, the named control characters by name,
      the other control characters as `\u00XX` in lower-case hex. */
  function EscapeChar(c: char): (s: string)
    ensures |s| >= 1
  {
    if c == '"' then "\\\""
    else if c == '\\' then "\\\\"
    else if c == '\n' then "\\n"
    else if c == '\r' then "\\r"
    else if c == '\t' then "\\t"
    else if c == '\U{8}' then "\\b"
    else if c == '\U{C}' then "\\f"
    else if c < ' ' then "\\u00" + [HexDigit(c as int / 16), HexDigit(c as int % 16)]
    else [c]
  }

  function Escape(s: string): string {
    if s == [] then "" else EscapeChar(s[0]) + Escape(s[1..])
  }

  /** Reads back what `Escape` writes. */
  function Unescape(t: string): string
    decreases |t|
  {
    if t == [] then ""
    else if t[0] == '\\' && |t| >= 6 && t[1] == 'u' then
      [(HexValue(t[4]) * 16 + HexValue(t[5])) as char] + Unescape(t[6..])
    else if t[0] == '\\' && |t| >= 2 then
      [UnescapeNamed(t[1])] + Unescape(t[2..])
    else [t[0]] + Unescape(t[1..])
  }

  function UnescapeNamed(c: char): char {
    if c == 'n' then '\n'
    else if c == 'r' then '\r'
    else if c == 't' then '\t'
    else if c == 'b' then '\U{8}'
    else if c == 'f' then '\U{C}'
    else c
  }

  lemma UnescapeEscapeChar(c: char, rest: string)
    ensures Unescape(EscapeChar(c) + rest) == [c] + Unescape(rest)
  {
    var t := EscapeChar(c) + rest;
    if c < ' ' && c != '\n' && c != '\r' && c != '\t' && c != '\U{8}' && c != '\U{C}' {
      var hi, lo := c as int / 16, c as int % 16;
      HexValueOfDigit(hi);
      HexValueOfDigit(lo);
      assert t[6..] == rest;
    } else if |EscapeChar(c)| == 2 {
      assert t[2..] == rest;
    } else {
      assert t[1..] == rest;
    }
  }

  lemma {:induction false} UnescapeEscape(s: string)
    ensures Unescape(Escape(s)) == s
  {
    if s != [] {
      UnescapeEscapeChar(s[0], Escape(s[1..]));
      UnescapeEscape(s[1..]);
    }
  }

  /** `Z.toString` of a string: the JSON string literal. */
  function Quote(s: string): (r: string)
    ensures |r| >= 2 && r[0] == '"' && r[|r| - 1] == '"'
  {
    "\"" + Escape(s) + "\""
  }

  lemma QuoteInjective(a: string, b: string)
    ensures Quote(a) == Quote(b) ==> a == b
  {
    if Quote(a) == Quote(b) {
      assert Quote(a)[1..|Quote(a)| - 1] == Escape(a);
      assert Quote(b)[1..|Quote(b)| - 1] == Escape(b);
      UnescapeEscape(a);
      UnescapeEscape(b);
    }
  }

  /** The elements' forms separated by ", ". */
  function JoinShown<T>(xs: seq<T>, show: T -> string): string {
    if xs == [] then ""
    else if |xs| == 1 then show(xs[0])
    else show(xs[0]) + ", " + JoinShown(xs[1..], show)
  }

  /** `Z.toString` of an array: `[1, 2, 3]`. */
  function ShowArray<T>(xs: seq<T>, show: T -> string): (r: string)
    ensures |r| >= 2 && r[0] == '[' && r[|r| - 1] == ']'
  {
    "[" + JoinShown(xs, show) + "]"
  }

  /** A rendering function that never gives two values the same text. */
  ghost predicate Injective<T(!new)>(show: T -> string) {
    forall a, b :: show(a) == show(b) ==> a == b
  }

  /** The form `Name(inner)` shared by Just, Left, Right and Identity,
      and the fact that the inner text can be cut back out of it. */
  function Wrap(name: string, inner: string): string {
    name + "(" + inner + ")"
  }

  lemma WrapInjective(name: string, a: string, b: string)
    ensures Wrap(name, a) == Wrap(name, b) ==> a == b
  {
    var n := |name| + 1;
    if Wrap(name, a) == Wrap(name, b) {
      assert Wrap(name, a)[n..|Wrap(name, a)| - 1] == a;
      assert Wrap(name, b)[n..|Wrap(name, b)| - 1] == b;
    }
  }
}
