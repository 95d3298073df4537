/** Cell values of the data frame and the three casts of the `astype` call in
    `clean`: to int64, to float64 and to pandas' 'string' dtype. */
module Scalars {
  import opened Wrappers
  import opened Sequences

  /** A non-missing scalar as the CSV reader hands it over: an integer, a
      float (a float64 is modelled by the exact real number it stands for)
      or text. */
  datatype Value = Int(i: int) | Float(x: real) | Text(s: string)

  /** One cell of the frame; None is pandas' missing value (NaN or None). */
  type Cell = Option<Value>

  /** A value of the 'string' dtype. Text and integers become their
      characters; the text pandas makes of a float is its own rendering and
      is kept abstract: ReprOf(x) stands for it. */
  datatype Str = Chars(s: string) | ReprOf(x: real)

  const Int64Min: int := -0x8000_0000_0000_0000
  const Int64Max: int := 0x7FFF_FFFF_FFFF_FFFF

  predicate InInt64(n: int) {
    Int64Min <= n <= Int64Max
  }

  predicate IsDigit(c: char) {
    '0' <= c <= '9'
  }

  predicate AllDigits(s: string) {
    forall i :: 0 <= i < |s| ==> IsDigit(s[i])
  }

  function Pow10(k: nat): (p: nat)
    ensures p >= 1
  {
    if k == 0 then 1 else 10 * Pow10(k - 1)
  }

  /** The number a string of decimal digits spells, most significant first. */
  function DigitsValue(s: string): (n: nat)
    requires AllDigits(s)
    ensures n < Pow10(|s|)
  {
    if s == [] then 0
    else DigitsValue(s[..|s| - 1]) * 10 + (s[|s| - 1] as int - '0' as int)
  }

  /** Digits with no superfluous leading zero: "0", or a first digit other
      than '0'. */
  predicate NoLeadingZero(s: string) {
    |s| >= 1 && AllDigits(s) && (s[0] == '0' ==> s == "0")
  }

  /** The shortest decimal spelling of a natural number. */
  function Digits(n: nat): (s: string)
    ensures NoLeadingZero(s)
    ensures DigitsValue(s) == n
  {
    var last := ('0' as int + n % 10) as char;
    if n < 10 then [last]
    else
      var s := Digits(n / 10) + [last];
      assert s[..|s| - 1] == Digits(n / 10);
      assert s[0] == Digits(n / 10)[0];
      s
  }

  lemma {:induction false} LeadingDigitNonZero(s: string)
    requires |s| >= 1 && AllDigits(s) && s[0] != '0'
    ensures DigitsValue(s) >= 1
    decreases |s|
  {
    if |s| > 1 {
      LeadingDigitNonZero(s[..|s| - 1]);
    }
  }

  /** A spelling with no superfluous leading zero is the spelling of its value. */
  lemma {:induction false} DigitsOfValue(s: string)
    requires NoLeadingZero(s)
    ensures Digits(DigitsValue(s)) == s
    decreases |s|
  {
    if |s| > 1 {
      var init := s[..|s| - 1];
      assert init[0] == s[0];
      LeadingDigitNonZero(init);
      DigitsOfValue(init);
      var d := s[|s| - 1] as int - '0' as int;
      var n := DigitsValue(init) * 10 + d;
      assert 0 <= d < 10 && n == DigitsValue(s);
      assert n / 10 == DigitsValue(init) && n % 10 == d;
      assert s == init + [s[|s| - 1]];
    }
  }

  /** Splits an optional leading sign off a literal: whether it was '-',
      and the rest. */
  function SplitSign(s: string): (bool, string) {
    if |s| > 0 && (s[0] == '-' || s[0] == '+') then (s[0] == '-', s[1..]) else (false, s)
  }

  function Signed(negative: bool, n: int): int {
    if negative then -n else n
  }

  /** The integer literals int() accepts here: digits after an optional sign. */
  predicate IsIntLiteral(s: string) {
    && |s| > 0
    && (IsDigit(s[0]) || (|s| > 1 && (s[0] == '-' || s[0] == '+')))
    && forall i :: 0 < i < |s| ==> IsDigit(s[i])
  }

  /** Python's int() on a string: an optional sign and one or more digits. */
  function ParseInt(s: string): (r: Option<int>)
    ensures r.Some? <==> IsIntLiteral(s)
    ensures r.Some? && r.value < 0 ==> s[0] == '-'
    ensures r.Some? ==> AllDigits(SplitSign(s).1) && r.value == Signed(SplitSign(s).0, DigitsValue(SplitSign(s).1))
  {
    var (negative, body) := SplitSign(s);
    if body != [] && AllDigits(body) then Some(Signed(negative, DigitsValue(body))) else None
  }

  /** The text Python's str() gives an integer: a '-' for a negative one,
      then its digits with no superfluous leading zero. */
  predicate IsCanonicalInt(s: string) {
    NoLeadingZero(s) || (|s| >= 2 && s[0] == '-' && NoLeadingZero(s[1..]) && s[1..] != "0")
  }

  /** The decimal text Python's str() gives an integer; ParseInt reads it back. */
  function Decimal(n: int): (s: string)
    ensures IsCanonicalInt(s) && (s[0] == '-' <==> n < 0)
    ensures ParseInt(s) == Some(n)
  {
    if n < 0 then
      var s := "-" + Digits(-n);
      assert s[1..] == SplitSign(s).1 == Digits(-n);
      s
    else
      var s := Digits(n);
      assert IsDigit(s[0]);
      s
  }

  /** Every canonical integer text is the one Decimal writes for its value,
      so Decimal and ParseInt are inverse on canonical texts. */
  lemma DecimalOfCanonical(s: string)
    requires IsCanonicalInt(s)
    ensures ParseInt(s).Some? && Decimal(ParseInt(s).value) == s
  {
    if s[0] == '-' {
      var body := s[1..];
      assert s == "-" + body && SplitSign(s) == (true, body);
      assert body[0] != '0';
      DigitsOfValue(body);
      LeadingDigitNonZero(body);
      var v: int := DigitsValue(body);
      assert ParseInt(s) == Some(-v);
      assert Decimal(-v) == "-" + Digits(v);
    } else {
      assert SplitSign(s) == (false, s);
      DigitsOfValue(s);
      assert ParseInt(s) == Some(DigitsValue(s));
    }
  }

  /** The digits a text starts with. */
  function DigitPrefix(s: string): (p: string)
    ensures AllDigits(p) && |p| <= |s| && p == s[..|p|]
    ensures |p| < |s| ==> !IsDigit(s[|p|])
  {
    if s == [] || !IsDigit(s[0]) then []
    else [s[0]] + DigitPrefix(s[1..])
  }

  lemma {:induction false} DigitPrefixOfDigits(a: string, b: string)
    requires AllDigits(a) && (b == [] || !IsDigit(b[0]))
    ensures DigitPrefix(a + b) == a
    decreases |a|
  {
    if a != [] {
      assert (a + b)[1..] == a[1..] + b;
      DigitPrefixOfDigits(a[1..], b);
    }
  }

  /** The unsigned part of a float literal: digits and at most one point,
      with at least one digit. */
  predicate IsDecimalBody(body: string) {
    && (forall i :: 0 <= i < |body| ==> IsDigit(body[i]) || body[i] == '.')
    && (forall i, j :: 0 <= i < j < |body| && body[i] == '.' ==> body[j] != '.')
    && (exists i :: 0 <= i < |body| && IsDigit(body[i]))
  }

  /** The float literals float() accepts here: an optional sign, digits, and
      at most one point, with a digit on at least one side of it. */
  predicate IsDecimalLiteral(s: string) {
    IsDecimalBody(SplitSign(s).1)
  }

  lemma PointedBody(body: string, k: nat)
    requires k < |body| && body[k] == '.' && '.' !in body[..k]
    ensures IsDecimalBody(body) <==>
      AllDigits(body[..k]) && AllDigits(body[k + 1..]) && |body[..k]| + |body[k + 1..]| > 0
  {
    var whole, fraction := body[..k], body[k + 1..];
    if IsDecimalBody(body) {
      forall i | 0 <= i < |whole| ensures IsDigit(whole[i]) {
        assert whole[i] == body[i] && body[i] in whole;
      }
      forall i | 0 <= i < |fraction| ensures IsDigit(fraction[i]) {
        assert fraction[i] == body[k + 1 + i];
      }
      var i :| 0 <= i < |body| && IsDigit(body[i]);
      assert i != k;
    }
    if AllDigits(whole) && AllDigits(fraction) && |whole| + |fraction| > 0 {
      forall i | 0 <= i < |body| && i != k ensures IsDigit(body[i]) {
        if i < k {
          assert body[i] == whole[i];
        } else {
          assert body[i] == fraction[i - k - 1];
        }
      }
      if |whole| > 0 {
        assert IsDigit(body[0]) && body[0] == whole[0];
      } else {
        assert IsDigit(body[k + 1]) && body[k + 1] == fraction[0];
      }
    }
  }

  lemma PlainBody(body: string)
    requires '.' !in body
    ensures IsDecimalBody(body) <==> body != [] && AllDigits(body)
  {
    if body != [] && AllDigits(body) {
      assert IsDigit(body[0]);
    }
    if IsDecimalBody(body) {
      forall i | 0 <= i < |body| ensures IsDigit(body[i]) {
        assert body[i] in body;
      }
    }
  }

  /** A truncation toward zero that lands on an integer. */
  lemma TruncOfMagnitude(negative: bool, w: nat, x: real)
    requires w as real <= x < w as real + 1.0
    ensures Trunc(if negative then -x else x) == Signed(negative, w)
  {
  }

  /** The value of `whole.fraction`, both parts all digits. */
  function PointedValue(whole: string, fraction: string): (x: real)
    requires AllDigits(whole) && AllDigits(fraction)
    ensures DigitsValue(whole) as real <= x < DigitsValue(whole) as real + 1.0
  {
    var f, p := DigitsValue(fraction), Pow10(|fraction|);
    FractionBelowOne(f, p);
    DigitsValue(whole) as real + f as real / p as real
  }

  lemma FractionBelowOne(f: nat, p: nat)
    requires f < p
    ensures 0.0 <= f as real / p as real < 1.0
  {
    assert f as real < p as real;
  }

  /** float() on an unsigned literal: the digits before the point make the
      whole part, those after it the fraction. */
  function ParseMagnitude(body: string): (r: Option<real>)
    ensures r.Some? <==> IsDecimalBody(body)
    ensures r.Some? ==> DigitsValue(DigitPrefix(body)) as real <= r.value < DigitsValue(DigitPrefix(body)) as real + 1.0
    ensures body != [] && AllDigits(body) ==> r == Some(DigitsValue(body) as real)
  {
    if '.' in body then
      var k := IndexOf(body, '.');
      var whole, fraction := body[..k], body[k + 1..];
      PointedBody(body, k);
      if AllDigits(whole) && AllDigits(fraction) && |whole| + |fraction| > 0 then
        assert body == whole + body[k..];
        DigitPrefixOfDigits(whole, body[k..]);
        Some(PointedValue(whole, fraction))
      else None
    else
      PlainBody(body);
      if body != [] && AllDigits(body) then
        assert body == body + [];
        DigitPrefixOfDigits(body, []);
        Some(DigitsValue(body) as real)
      else None
  }

  /** Python's float() on a plain decimal literal: an optional sign, digits,
      and at most one point with digits on at least one side of it. */
  function ParseDecimal(s: string): (r: Option<real>)
    ensures r.Some? <==> IsDecimalLiteral(s)
    ensures r.Some? ==> Trunc(r.value) == Signed(SplitSign(s).0, DigitsValue(DigitPrefix(SplitSign(s).1)))
    ensures ParseInt(s).Some? ==> r == Some(ParseInt(s).value as real)
  {
    var (negative, body) := SplitSign(s);
    match ParseMagnitude(body)
    case None => None
    case Some(m) =>
      TruncOfMagnitude(negative, DigitsValue(DigitPrefix(body)), m);
      Some(if negative then -m else m)
  }

  /** numpy's float-to-integer cast: truncation toward zero. */
  function Trunc(x: real): (n: int)
    ensures 0.0 <= x ==> n as real <= x < n as real + 1.0
    ensures x < 0.0 ==> n as real - 1.0 < x <= n as real
  {
    if x >= 0.0 then x.Floor else -((-x).Floor)
  }

  /** The cast of one value under the 'int64' and 'int' entries of the
      `astype` mapping: None is the ValueError or OverflowError that aborts
      the cast. */
  function ToInt64(v: Value): (r: Option<int>)
    ensures v.Int? ==> (r.Some? <==> InInt64(v.i)) && (r.Some? ==> r.value == v.i)
    ensures v.Text? ==> (r.Some? <==> IsIntLiteral(v.s) && InInt64(ParseInt(v.s).value))
    ensures v.Text? && r.Some? ==> ParseInt(v.s) == r
    ensures v.Float? ==> r == Some(Trunc(v.x))
  {
    match v
    case Int(i) => if InInt64(i) then Some(i) else None
    case Float(x) => Some(Trunc(x))
    case Text(s) =>
      match ParseInt(s)
      case Some(n) => if InInt64(n) then Some(n) else None
      case None => None
  }

  /** The cast of one value under the 'float64' entry of the `astype`
      mapping. */
  function ToFloat64(v: Value): (r: Option<real>)
    ensures v.Int? ==> r == Some(v.i as real)
    ensures v.Float? ==> r == Some(v.x)
    ensures v.Text? ==> (r.Some? <==> IsDecimalLiteral(v.s))
    ensures v.Text? && r.Some? ==> Trunc(r.value) == Signed(SplitSign(v.s).0, DigitsValue(DigitPrefix(SplitSign(v.s).1)))
    ensures v.Text? && ParseInt(v.s).Some? ==> r == Some(ParseInt(v.s).value as real)
  {
    match v
    case Int(i) => Some(i as real)
    case Float(x) => Some(x)
    case Text(s) => ParseDecimal(s)
  }

  /** The cast of one value to the 'string' dtype; it never fails. */
  function ToStr(v: Value): (r: Str)
    ensures v.Text? ==> r == Chars(v.s)
    ensures v.Int? ==> r.Chars? && IsCanonicalInt(r.s) && ParseInt(r.s) == Some(v.i)
    ensures v.Float? ==> r == ReprOf(v.x)
  {
    match v
    case Text(s) => Chars(s)
    case Int(i) => Chars(Decimal(i))
    case Float(x) => ReprOf(x)
  }

  /** Two values of one kind that become the same string are the same value. */
  lemma ToStrInjectiveOnKind(u: Value, v: Value)
    requires u.Int? == v.Int? && u.Text? == v.Text? && u.Float? == v.Float?
    requires ToStr(u) == ToStr(v)
    ensures u == v
  {
  }

  /** An integer spelled as text casts to the same int64, float64 and
      string as the integer itself. */
  lemma TextOfIntegerCastsLikeInteger(n: int)
    ensures ToInt64(Text(Decimal(n))) == ToInt64(Int(n))
    ensures ToFloat64(Text(Decimal(n))) == ToFloat64(Int(n))
    ensures ToStr(Text(Decimal(n))) == ToStr(Int(n))
  {
  }
}
