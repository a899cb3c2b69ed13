/** The optional value used for groups that may be absent and for collaborator calls that may fail. */
module Wrappers {
  datatype Option<+T> = None | Some(value: T)
}

/**
 Character classes and number conversions shared by the version grammar and the
 commit-subject pattern: the `\d`, `[[:xdigit:]]` and `\w` classes of Go's RE2
 (ASCII only), a longest-run scanner, `strconv.Atoi` on digit strings and the
 `%d` formatting of `fmt`.
 */
module Text {

  /** `\d` in RE2: an ASCII decimal digit. */
  predicate IsDigit(c: char) { '0' <= c <= '9' }

  /** `[[:xdigit:]]`: an ASCII hexadecimal digit of either case. */
  predicate IsHexDigit(c: char) { IsDigit(c) || 'a' <= c <= 'f' || 'A' <= c <= 'F' }

  /** `\w` in RE2: an ASCII letter, digit or underscore. */
  predicate IsWordChar(c: char) { IsDigit(c) || 'a' <= c <= 'z' || 'A' <= c <= 'Z' || c == '_' }

  /** `[\w \-]`: a character allowed in the scope of a commit subject. */
  predicate IsScopeChar(c: char) { IsWordChar(c) || c == ' ' || c == '-' }

  /** The character classes the two patterns of the tool repeat with `+`. */
  datatype CharClass = Decimal | Hexadecimal | Scope

  predicate In(k: CharClass, c: char) {
    match k
    case Decimal => IsDigit(c)
    case Hexadecimal => IsHexDigit(c)
    case Scope => IsScopeChar(c)
  }

  /** Every character of `s` is in the class `k`. */
  predicate All(s: string, k: CharClass) { forall i :: 0 <= i < |s| ==> In(k, s[i]) }

  /** A non-empty run of decimal digits, what `\d+` matches. */
  predicate Digits(s: string) { |s| > 0 && All(s, Decimal) }

  /** The length of the longest prefix of `s` whose characters are all in `k`. */
  function Span(s: string, k: CharClass): (n: nat)
    ensures n <= |s|
    ensures All(s[..n], k)
    ensures n < |s| ==> !In(k, s[n])
  {
    if s == [] || !In(k, s[0]) then 0
    else
      1 + Span(s[1..], k)
  }

  /** A run of `k` characters followed by something that is not a `k` character is scanned exactly. */
  lemma {:induction false} SpanOfRun(x: string, t: string, k: CharClass)
    requires All(x, k)
    requires t == [] || !In(k, t[0])
    ensures Span(x + t, k) == |x|
  {
    if x != [] {
      var s := x + t;
      assert s[0] == x[0];
      assert s[1..] == x[1..] + t;
      SpanOfRun(x[1..], t, k);
    }
  }

  /** A text is its prefix of length `n` followed by the rest. */
  lemma SplitAt(s: string, n: nat)
    requires n <= |s|
    ensures s == s[..n] + s[n..]
  {
  }

  /** The value of a decimal digit. */
  function DigitValue(c: char): (d: nat)
    requires IsDigit(c)
    ensures d < 10
  {
    c as int - '0' as int
  }

  /** The digit character for a value below ten. */
  function DigitChar(d: nat): (c: char)
    requires d < 10
    ensures IsDigit(c) && DigitValue(c) == d
  {
    ('0' as int + d) as char
  }

  /** 10 to the power `n`. */
  function Pow10(n: nat): nat {
    if n == 0 then 1 else 10 * Pow10(n - 1)
  }

  /**
   `strconv.Atoi` on a string of decimal digits (leading zeros allowed, no sign,
   no width limit): a numeral of n digits has a value below 10 to the n.
   */
  function DecimalValue(ds: string): (r: nat)
    requires All(ds, Decimal)
    ensures r < Pow10(|ds|)
    decreases |ds|
  {
    if ds == [] then 0
    else 10 * DecimalValue(ds[..|ds| - 1]) + DigitValue(ds[|ds| - 1])
  }

  /** A decimal numeral as `%d` writes one: digits only and no leading zero except for "0" itself. */
  predicate Canonical(ds: string) { Digits(ds) && (ds[0] == '0' ==> |ds| == 1) }

  /** `%d` on a natural number: a canonical numeral that reads back as `n`. */
  function NatToString(n: nat): (r: string)
    ensures Canonical(r)
    ensures DecimalValue(r) == n
  {
    if n < 10 then [DigitChar(n)]
    else
      var q := NatToString(n / 10);
      var r := q + [DigitChar(n % 10)];
      assert r[..|r| - 1] == q;
      r
  }

  /** A numeral whose first digit is not zero has a positive value. */
  lemma {:induction false} DecimalValuePositive(ds: string)
    requires Digits(ds) && ds[0] != '0'
    ensures DecimalValue(ds) > 0
  {
    if |ds| > 1 {
      var q := ds[..|ds| - 1];
      assert q[0] == ds[0];
      DecimalValuePositive(q);
    }
  }

  /** Reading a canonical numeral and writing the number back gives the same numeral. */
  lemma {:induction false} NatToStringOfDecimal(ds: string)
    requires Canonical(ds)
    ensures NatToString(DecimalValue(ds)) == ds
  {
    var last := |ds| - 1;
    var q := ds[..last];
    if |ds| == 1 {
      assert DecimalValue(q) == 0;
      assert DigitChar(DigitValue(ds[0])) == ds[0];
    } else {
      assert q[0] == ds[0];
      DecimalValuePositive(q);
      NatToStringOfDecimal(q);
      var n := DecimalValue(ds);
      assert n / 10 == DecimalValue(q) && n % 10 == DigitValue(ds[last]);
      assert DigitChar(DigitValue(ds[last])) == ds[last];
      assert q + [ds[last]] == ds;
    }
  }

  /** Two canonical numerals with the same value are the same numeral. */
  lemma CanonicalUnique(a: string, b: string)
    requires Canonical(a) && Canonical(b)
    requires DecimalValue(a) == DecimalValue(b)
    ensures a == b
  {
    NatToStringOfDecimal(a);
    NatToStringOfDecimal(b);
  }
}
