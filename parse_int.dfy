/**
 * The part of ECMAScript's `parseInt(string, 10)` that the year check of the
 * vehicle form relies on: leading white space is skipped, one optional sign is
 * read, then the longest run of decimal digits is converted. When there is no
 * digit at all the result is NaN, modelled as `None`.
 *
 * The result is an unbounded integer. JavaScript rounds very long numerals to
 * the nearest double; the only use of the result is a comparison against
 * 1900 and the current calendar year, both far below 2^53, and rounding to
 * the nearest double is monotone, so those comparisons come out the same.
 */
module ParseInt {
  import opened Wrappers

  /** The characters ECMAScript calls StrWhiteSpaceChar: WhiteSpace (including every Zs space) and LineTerminator. */
  predicate IsStrWhiteSpace(c: char) {
    || c == '\t' || c == '\n' || c == '\U{000B}' || c == '\U{000C}' || c == '\r' || c == ' '
    || c == '\U{00A0}' || c == '\U{1680}' || ('\U{2000}' <= c <= '\U{200A}')
    || c == '\U{2028}' || c == '\U{2029}' || c == '\U{202F}' || c == '\U{205F}' || c == '\U{3000}'
    || c == '\U{FEFF}'
  }

  predicate IsDigit(c: char) {
    '0' <= c <= '9'
  }

  predicate AllDigits(s: string) {
    forall i :: 0 <= i < |s| ==> IsDigit(s[i])
  }

  function DigitValue(c: char): (d: nat)
    requires IsDigit(c)
    ensures d < 10
  {
    (c as int) - ('0' as int)
  }

  function DigitChar(d: nat): (c: char)
    requires d < 10
    ensures IsDigit(c) && DigitValue(c) == d
  {
    ('0' as int + d) as char
  }

  function Pow10(k: nat): (p: nat)
    ensures p >= 1
  {
    if k == 0 then 1 else 10 * Pow10(k - 1)
  }

  /** Drops the leading white space of `s`: what is left is a suffix of `s` that does not start with white space. */
  function TrimStart(s: string): (t: string)
    ensures |t| <= |s| && t == s[|s| - |t|..]
    ensures t == [] || !IsStrWhiteSpace(t[0])
    ensures forall i :: 0 <= i < |s| - |t| ==> IsStrWhiteSpace(s[i])
  {
    if s != [] && IsStrWhiteSpace(s[0]) then TrimStart(s[1..]) else s
  }

  /** The longest prefix of `s` made of decimal digits. */
  function LeadingDigits(s: string): (d: string)
    ensures |d| <= |s| && d == s[..|d|]
    ensures AllDigits(d)
    ensures |d| == |s| || !IsDigit(s[|d|])
  {
    if s != [] && IsDigit(s[0]) then [s[0]] + LeadingDigits(s[1..]) else []
  }

  /** The value of a decimal numeral written most significant digit first. */
  function NumeralValue(d: string): (n: nat)
    requires AllDigits(d)
    ensures n < Pow10(|d|)
  {
    if d == [] then 0
    else
      var m := NumeralValue(d[..|d| - 1]);
      assert m <= Pow10(|d| - 1) - 1;
      m * 10 + DigitValue(d[|d| - 1])
  }

  /** What is left of `t` once one leading '+' or '-' is removed. */
  function Unsigned(t: string): (u: string)
    ensures u == t || (t != [] && (t[0] == '+' || t[0] == '-') && u == t[1..])
  {
    if t != [] && (t[0] == '+' || t[0] == '-') then t[1..] else t
  }

  /** `parseInt(s, 10)`, with `None` for NaN. */
  function ParseInt10(s: string): (r: Option<int>)
    ensures AllDigits(s) ==> (r.Some? <==> s != [])
    ensures (forall i :: 0 <= i < |s| ==> !IsDigit(s[i])) ==> r == None
  {
    ParseFrom(TrimStart(s))
  }

  /** The steps of `parseInt` after the leading white space is gone. */
  function ParseFrom(t: string): Option<int> {
    var d := LeadingDigits(Unsigned(t));
    if d == [] then None
    else
      var n: int := NumeralValue(d);
      if t[0] == '-' then Some(-n) else Some(n)
  }

  /** The decimal numeral of `n`, without sign or leading zeros (JavaScript's `String(n)`). */
  function Decimal(n: nat): (s: string)
    ensures s != [] && AllDigits(s)
  {
    if n < 10 then [DigitChar(n)] else Decimal(n / 10) + [DigitChar(n % 10)]
  }

  lemma {:induction false} NumeralValueOfDecimal(n: nat)
    ensures NumeralValue(Decimal(n)) == n
  {
    if n >= 10 {
      NumeralValueOfDecimal(n / 10);
      var s := Decimal(n);
      assert s[..|s| - 1] == Decimal(n / 10);
    }
  }

  lemma {:induction false} LeadingDigitsOfNumeral(d: string, rest: string)
    requires AllDigits(d)
    requires rest == [] || !IsDigit(rest[0])
    ensures LeadingDigits(d + rest) == d
  {
    if d != [] {
      assert (d + rest)[1..] == d[1..] + rest;
      LeadingDigitsOfNumeral(d[1..], rest);
    }
  }

  /** Parsing the decimal numeral of a natural number gives that number back. */
  lemma ParseDecimal(n: nat)
    ensures ParseInt10(Decimal(n)) == Some(n)
  {
    var s := Decimal(n);
    assert TrimStart(s) == s;
    assert Unsigned(s) == s;
    LeadingDigitsOfNumeral(s, []);
    assert s + [] == s;
    NumeralValueOfDecimal(n);
  }

  /** Only the leading digits count: whatever follows the first non-digit is ignored, as in `parseInt("2020abc")`. */
  lemma ParseIgnoresTrailing(d: string, rest: string)
    requires d != [] && AllDigits(d)
    requires rest == [] || !IsDigit(rest[0])
    ensures ParseInt10(d + rest) == Some(NumeralValue(d))
  {
    var s := d + rest;
    assert s[0] == d[0] && IsDigit(s[0]);
    LeadingDigitsOfNumeral(d, rest);
    ParseFromDigits(s, d);
  }

  /** A string that starts with a digit is its own trimmed, unsigned form, so its value is that of its leading digits. */
  lemma ParseFromDigits(s: string, d: string)
    requires s != [] && IsDigit(s[0])
    requires LeadingDigits(s) == d
    ensures ParseInt10(s) == Some(NumeralValue(d))
  {
    TrimStartOfNonSpace(s);
    assert Unsigned(s) == s;
  }

  /** A string that does not start with white space is left as it is by `TrimStart`. */
  lemma TrimStartOfNonSpace(s: string)
    requires s != [] && !IsStrWhiteSpace(s[0])
    ensures TrimStart(s) == s
  {
  }

  lemma {:induction false} TrimStartSkipsWhiteSpace(w: string, s: string)
    requires forall i :: 0 <= i < |w| ==> IsStrWhiteSpace(w[i])
    ensures TrimStart(w + s) == TrimStart(s)
  {
    if w != [] {
      assert (w + s)[0] == w[0];
      assert (w + s)[1..] == w[1..] + s;
      assert IsStrWhiteSpace((w + s)[0]);
      assert TrimStart(w + s) == TrimStart(w[1..] + s);
      TrimStartSkipsWhiteSpace(w[1..], s);
    } else {
      assert w + s == s;
    }
  }

  lemma {:induction false} TrimStartAt(s: string, a: nat)
    requires a < |s| && !IsStrWhiteSpace(s[a])
    requires forall i :: 0 <= i < a ==> IsStrWhiteSpace(s[i])
    ensures TrimStart(s) == s[a..]
  {
    if a > 0 {
      assert s[1..][a - 1] == s[a];
      TrimStartAt(s[1..], a - 1);
      assert s[1..][a - 1..] == s[a..];
    }
  }

  lemma {:induction false} LeadingDigitsAt(s: string, c: nat)
    requires c <= |s| && AllDigits(s[..c])
    requires c == |s| || !IsDigit(s[c])
    ensures LeadingDigits(s) == s[..c]
  {
    if c > 0 {
      assert s[0] == s[..c][0];
      assert s[1..][..c - 1] == s[..c][1..];
      LeadingDigitsAt(s[1..], c - 1);
    }
  }

  lemma DigitsFrom(s: string, b: nat, c: nat)
    requires b <= c <= |s| && AllDigits(s[b..c])
    requires c == |s| || !IsDigit(s[c])
    ensures LeadingDigits(s[b..]) == s[b..c]
  {
    var u, k := s[b..], c - b;
    assert u[..k] == s[b..c];
    assert k < |u| ==> u[k] == s[c];
    LeadingDigitsAt(u, k);
  }

  /**
   * `parseInt` on a string laid out as white space up to `a`, an optional '+'
   * up to `b`, and digits up to `c` followed by a non-digit or the end, is the
   * value of those digits.
   */
  lemma ParseAt(s: string, a: nat, b: nat, c: nat)
    requires a <= b < c <= |s|
    requires forall i :: 0 <= i < a ==> IsStrWhiteSpace(s[i])
    requires b == a || (b == a + 1 && s[a] == '+')
    requires AllDigits(s[b..c])
    requires c == |s| || !IsDigit(s[c])
    ensures ParseInt10(s) == Some(NumeralValue(s[b..c]))
  {
    assert s[b..c][0] == s[b];
    TrimStartAt(s, a);
    assert TrimStart(s) == s[a..];
    assert Unsigned(s[a..]) == s[b..];
    DigitsFrom(s, b, c);
    assert LeadingDigits(Unsigned(s[a..])) == s[b..c];
  }

  /** The sign and the digits of a positive result of `ParseFrom`. */
  lemma SplitOfPositiveParseFrom(t: string) returns (b: nat, c: nat)
    requires ParseFrom(t).Some? && ParseFrom(t).value > 0
    ensures b < c <= |t|
    ensures b == 0 || (b == 1 && t[0] == '+')
    ensures AllDigits(t[b..c])
    ensures c == |t| || !IsDigit(t[c])
    ensures ParseFrom(t) == Some(NumeralValue(t[b..c]))
  {
    var u := Unsigned(t);
    var d := LeadingDigits(u);
    assert t != [] && t[0] != '-';
    b := if t[0] == '+' then 1 else 0;
    assert u == t[b..];
    c := b + |d|;
    assert t[b..c] == d;
  }

  /** A sign-and-digits layout found in the suffix `s[a..]` is the same layout in `s`, shifted by `a`. */
  lemma ShiftLayout(s: string, a: nat, i: nat, j: nat) returns (b: nat, c: nat)
    requires a <= |s| && i < j <= |s| - a
    requires i == 0 || (i == 1 && s[a..][0] == '+')
    requires AllDigits(s[a..][i..j])
    requires j == |s| - a || !IsDigit(s[a..][j])
    ensures b == a + i && c == a + j
    ensures s[a..][i..j] == s[b..c]
    ensures b == a || s[a] == '+'
    ensures AllDigits(s[b..c])
    ensures c == |s| || !IsDigit(s[c])
  {
    b, c := a + i, a + j;
    var t := s[a..];
    var u, w := t[i..j], s[b..c];
    assert |u| == |w|;
    forall k | 0 <= k < |u| ensures u[k] == w[k] {
      assert u[k] == t[i + k];
      assert t[i + k] == s[b + k];
    }
    assert u == w;
  }

  /** The converse of `ParseAt` for positive results: where the white space, the sign and the digits end. */
  lemma SplitOfPositiveParse(s: string) returns (a: nat, b: nat, c: nat)
    requires ParseInt10(s).Some? && ParseInt10(s).value > 0
    ensures a <= b < c <= |s|
    ensures forall i :: 0 <= i < a ==> IsStrWhiteSpace(s[i])
    ensures b == a || (b == a + 1 && s[a] == '+')
    ensures AllDigits(s[b..c])
    ensures c == |s| || !IsDigit(s[c])
    ensures ParseInt10(s) == Some(NumeralValue(s[b..c]))
  {
    var t := TrimStart(s);
    a := |s| - |t|;
    var i, j := SplitOfPositiveParseFrom(t);
    b, c := ShiftLayout(s, a, i, j);
  }

  /** Leading white space does not change the result. */
  lemma ParseSkipsWhiteSpace(w: string, s: string)
    requires forall i :: 0 <= i < |w| ==> IsStrWhiteSpace(w[i])
    ensures ParseInt10(w + s) == ParseInt10(s)
  {
    TrimStartSkipsWhiteSpace(w, s);
    var t := TrimStart(s);
    assert ParseInt10(w + s) == ParseFrom(t);
    assert ParseInt10(s) == ParseFrom(t);
  }

  /** A leading minus sign negates the value of the numeral after it. */
  lemma ParseNegative(d: string)
    requires d != [] && AllDigits(d)
    ensures ParseInt10(['-'] + d) == Some(-(NumeralValue(d) as int))
  {
    var s := ['-'] + d;
    assert TrimStart(s) == s;
    assert Unsigned(s) == d;
    LeadingDigitsOfNumeral(d, []);
    assert d + [] == d;
  }
}
