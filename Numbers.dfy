/** Python's `int(str)` and `float(str)` on the numeric cells of the CSV files, and the text the
    writers put back into those cells. Floats are modelled as exact decimals. */
module Numbers {
  import opened Base
  import opened Text

  predicate IsDigit(c: char) { '0' <= c <= '9' }

  predicate AllDigits(s: string) { forall i :: 0 <= i < |s| ==> IsDigit(s[i]) }

  function DigitValue(c: char): nat
    requires IsDigit(c)
  {
    c as int - '0' as int
  }

  function DigitChar(d: nat): (c: char)
    requires d < 10
    ensures IsDigit(c) && DigitValue(c) == d
  {
    ('0' as int + d) as char
  }

  /** The value of a string of decimal digits, most significant first. */
  function DigitsValue(s: string): nat
    requires AllDigits(s)
  {
    if s == [] then 0 else DigitsValue(s[..|s| - 1]) * 10 + DigitValue(s[|s| - 1])
  }

  function Pow10(k: nat): (r: nat)
    ensures r >= 1
  {
    if k == 0 then 1 else 10 * Pow10(k - 1)
  }

  /** Euclidean division by a positive divisor: the quotient times the divisor lies within one divisor below `x`. */
  lemma DivBounds(x: int, p: int)
    requires p > 0
    ensures p * (x / p) <= x < p * (x / p) + p
    ensures 0 <= x ==> 0 <= x / p
  {
  }

  /** `str(n)` for a natural number: its decimal digits without leading zeros. */
  function FormatNat(n: nat): (r: string)
    ensures r != [] && AllDigits(r)
    decreases n
  {
    if n < 10 then [DigitChar(n)] else FormatNat(n / 10) + [DigitChar(n % 10)]
  }

  lemma {:induction false} FormatNatValue(n: nat)
    ensures DigitsValue(FormatNat(n)) == n
    decreases n
  {
    if n >= 10 {
      FormatNatValue(n / 10);
      var s := FormatNat(n);
      assert s[..|s| - 1] == FormatNat(n / 10);
    }
  }

  /** The number `n < 10^k` written with exactly `k` digits, leading zeros included: how a
      fractional part is written. */
  function PadDigits(n: nat, k: nat): (r: string)
    requires n < Pow10(k)
    ensures |r| == k && AllDigits(r)
  {
    if k == 0 then [] else PadDigits(n / 10, k - 1) + [DigitChar(n % 10)]
  }

  lemma {:induction false} PadDigitsValue(n: nat, k: nat)
    requires n < Pow10(k)
    ensures DigitsValue(PadDigits(n, k)) == n
  {
    if k > 0 {
      PadDigitsValue(n / 10, k - 1);
      var s := PadDigits(n, k);
      assert s[..|s| - 1] == PadDigits(n / 10, k - 1);
    }
  }

  /** `str(n)` for an integer. */
  function FormatInt(n: int): (r: string)
    ensures r != []
  {
    if n < 0 then "-" + FormatNat(-n) else FormatNat(n)
  }

  /** A stripped numeric literal that starts with a minus sign. */
  predicate Negative(t: string) {
    t != [] && t[0] == '-'
  }

  function Signed(negative: bool, v: int): int {
    if negative then -v else v
  }

  /** A stripped numeric literal without its leading sign. */
  function Unsigned(t: string): (r: string)
    ensures |r| <= |t| && r == t[|t| - |r|..]
  {
    if t != [] && (t[0] == '-' || t[0] == '+') then t[1..] else t
  }

  /** An optional sign followed by at least one decimal digit and nothing else. */
  predicate IntLiteral(t: string) {
    |t| > 0 && (IsDigit(t[0]) || ((t[0] == '-' || t[0] == '+') && |t| > 1))
    && forall k :: 0 < k < |t| ==> IsDigit(t[k])
  }

  /** `int(s)` for a string in base 10: `None` where Python raises ValueError. It succeeds exactly
      on a signed digit string surrounded by white space, and the result is negative only after
      a minus sign. */
  function ParseInt(s: string): (r: Option<int>)
    ensures r.Some? <==> IntLiteral(Strip(s))
    ensures r.Some? && r.value < 0 ==> Strip(s)[0] == '-'
  {
    var t := Strip(s);
    var body := Unsigned(t);
    UnsignedDigits(t);
    if body != [] && AllDigits(body) then Some(Signed(Negative(t), DigitsValue(body))) else None
  }

  /** The body after the sign is a non-empty digit string exactly for an integer literal. */
  lemma UnsignedDigits(t: string)
    ensures Unsigned(t) != [] && AllDigits(Unsigned(t)) <==> IntLiteral(t)
  {
    var body := Unsigned(t);
    if t != [] && (t[0] == '-' || t[0] == '+') {
      assert body == t[1..];
      if IntLiteral(t) {
        forall i | 0 <= i < |body| ensures IsDigit(body[i]) { assert body[i] == t[i + 1]; }
      }
      if body != [] && AllDigits(body) {
        forall k | 0 < k < |t| ensures IsDigit(t[k]) { assert t[k] == body[k - 1]; }
      }
    }
  }

  /** What `str(n)` writes, `int()` reads back. */
  lemma ParseFormatInt(n: int)
    ensures ParseInt(FormatInt(n)) == Some(n)
  {
    IntLiteralShape(n);
    FormatNatValue(if n < 0 then -n else n);
  }

  /** `int()` rejects any string holding a character other than a digit, a sign or white space,
      such as the point in "4.0". */
  lemma ParseIntRejectsNonDigit(s: string, k: nat)
    requires k < |s| && !IsDigit(s[k]) && !IsSpace(s[k]) && s[k] != '-' && s[k] != '+'
    ensures ParseInt(s) == None
  {
    var l := StripLeft(s);
    var t := StripRight(l);
    StripLeftSpec(s);
    StripRightSpec(l);
    var a := |s| - |l|;
    assert a <= k;
    assert l[k - a] == s[k];
    assert k - a < |t|;
    assert t[k - a] == s[k];
    var body := Unsigned(t);
  }

  /** The position of the first `c` in `s`, or `|s|` when there is none. */
  function IndexOf(s: string, c: char): (r: nat)
    ensures r <= |s|
    ensures forall k :: 0 <= k < r ==> s[k] != c
    ensures r < |s| ==> s[r] == c
  {
    if s == [] then 0 else if s[0] == c then 0 else 1 + IndexOf(s[1..], c)
  }

  /** A decimal number `units / 10^scale`: a finite float read from or written to a CSV cell. */
  datatype Decimal = Decimal(units: int, scale: nat)

  const Zero := Decimal(0, 0)

  /** No trailing zero after the decimal point, so that equal numbers have equal representations. */
  predicate Normal(d: Decimal) {
    d.scale == 0 || d.units % 10 != 0
  }

  /** The same number with trailing fractional zeros removed. */
  function Normalise(d: Decimal): (r: Decimal)
    ensures Normal(r) && r.scale <= d.scale
    ensures Shift(r.units, d.scale - r.scale) == d.units
    decreases d.scale
  {
    if d.scale > 0 && d.units % 10 == 0 then Normalise(Decimal(d.units / 10, d.scale - 1)) else d
  }

  /** The integer `k` as a decimal. */
  function FromInt(k: int): (r: Decimal)
    ensures Normal(r) && r.units == k && r.scale == 0
  {
    Decimal(k, 0)
  }

  /** `d < k` for an integer `k`. */
  predicate Below(d: Decimal, k: int) {
    d.units < k * Pow10(d.scale)
  }

  /** `d > k` for an integer `k`. */
  predicate Exceeds(d: Decimal, k: int) {
    d.units > k * Pow10(d.scale)
  }

  /** `int(x)` for a float: the integer part, truncated toward zero. */
  function Truncate(d: Decimal): (r: int)
    ensures 0 <= d.units ==> 0 <= r && Pow10(d.scale) * r <= d.units < Pow10(d.scale) * r + Pow10(d.scale)
    ensures d.units < 0 ==> r <= 0 && Pow10(d.scale) * r - Pow10(d.scale) < d.units <= Pow10(d.scale) * r
  {
    var p := Pow10(d.scale);
    if d.units >= 0 then
      DivBounds(d.units, p);
      d.units / p
    else
      DivBounds(-d.units, p);
      -((-d.units) / p)
  }

  /** Digits with at most one point among them, and at least one digit. */
  predicate DecimalBody(u: string) {
    (forall k :: 0 <= k < |u| ==> IsDigit(u[k]) || u[k] == '.')
    && (forall i, j :: 0 <= i < j < |u| && u[i] == '.' ==> u[j] != '.')
    && exists k :: 0 <= k < |u| && IsDigit(u[k])
  }

  /** `float(s)` for a plain decimal literal: it succeeds exactly on an optional sign followed by
      digits with at most one point, surrounded by white space. */
  function ParseDecimal(s: string): (r: Option<Decimal>)
    ensures r.Some? ==> Normal(r.value)
    ensures r.Some? <==> DecimalBody(Unsigned(Strip(s)))
  {
    var t := Strip(s);
    DecimalLiteral(Negative(t), Unsigned(t))
  }

  /** The number written as `body` (digits with at most one point), negated when `negative`. */
  function DecimalLiteral(negative: bool, body: string): (r: Option<Decimal>)
    ensures r.Some? ==> Normal(r.value)
    ensures r.Some? <==> DecimalBody(body)
  {
    DecimalBodySplit(body);
    var dot := IndexOf(body, '.');
    var whole := body[..dot];
    var frac := if dot < |body| then body[dot + 1..] else [];
    if |whole| + |frac| > 0 && AllDigits(whole + frac) then
      Some(Normalise(Decimal(Signed(negative, DigitsValue(whole + frac)), |frac|)))
    else None
  }

  /** Cutting a body at its first point leaves a non-empty digit string exactly for a decimal body. */
  lemma DecimalBodySplit(body: string)
    ensures var dot := IndexOf(body, '.');
      var w := body[..dot] + (if dot < |body| then body[dot + 1..] else []);
      |w| > 0 && AllDigits(w) <==> DecimalBody(body)
  {
    var dot := IndexOf(body, '.');
    var frac := if dot < |body| then body[dot + 1..] else [];
    var w := body[..dot] + frac;
    assert |w| == if dot < |body| then |body| - 1 else |body|;
    forall k | 0 <= k < |w|
      ensures w[k] == if k < dot then body[k] else body[k + 1]
    {
      if k >= dot { assert w[k] == frac[k - dot]; }
    }
    if |w| > 0 && AllDigits(w) {
      forall k | 0 <= k < |body| && k != dot ensures IsDigit(body[k])
      {
        if k < dot { assert w[k] == body[k]; } else { assert w[k - 1] == body[k]; }
      }
      var k := if dot > 0 then 0 else 1;
      assert w[0] == body[k];
    }
    if DecimalBody(body) {
      var k :| 0 <= k < |body| && IsDigit(body[k]);
      assert k != dot;
      assert |w| > 0;
      forall m | 0 <= m < |w| ensures IsDigit(w[m])
      {
        if m < dot { assert w[m] == body[m]; }
        else { assert w[m] == body[m + 1]; assert body[dot] == '.'; }
      }
    }
  }

  /** How a float is written: integer part, a point, and the fractional digits (at least one). */
  function FormatDecimal(d: Decimal): (r: string)
    ensures r != []
  {
    var a := if d.units < 0 then -d.units else d.units;
    var p := Pow10(d.scale);
    DivBounds(a, p);
    (if d.units < 0 then "-" else "") + FormatNat(a / p) + "."
      + (if d.scale == 0 then "0" else PadDigits(a % p, d.scale))
  }

  /** `x * 10^k`, by repeated multiplication by ten. */
  function Shift(x: int, k: nat): int {
    if k == 0 then x else 10 * Shift(x, k - 1)
  }

  lemma {:induction false} ShiftIsProduct(x: int, k: nat)
    ensures Shift(x, k) == x * Pow10(k)
  {
    if k > 0 {
      ShiftIsProduct(x, k - 1);
      assert x * (10 * Pow10(k - 1)) == 10 * (x * Pow10(k - 1));
    }
  }

  /** Appending digits shifts the value of the digits before them. */
  lemma {:induction false} DigitsValueAppend(w: string, f: string)
    requires AllDigits(w) && AllDigits(f)
    ensures AllDigits(w + f)
    ensures DigitsValue(w + f) == Shift(DigitsValue(w), |f|) + DigitsValue(f)
    decreases |f|
  {
    if f == [] {
      assert w + f == w;
    } else {
      var g := f[..|f| - 1];
      DigitsValueAppend(w, g);
      assert (w + f)[..|w + f| - 1] == w + g;
    }
  }

  /** A literal `[-]w.f` has no surrounding whitespace, and its unsigned part is `w.f`. */
  lemma PointLiteralShape(neg: bool, w: string, f: string)
    requires w != [] && f != [] && AllDigits(w) && AllDigits(f)
    ensures var s := (if neg then "-" else "") + w + "." + f;
      Strip(s) == s && Negative(s) == neg && Unsigned(s) == w + "." + f
  {
    var s := (if neg then "-" else "") + w + "." + f;
    assert Trimmed(s) by {
      assert s[|s| - 1] == f[|f| - 1];
      if !neg { assert s[0] == w[0]; }
    }
    assert Strip(s) == s by {
      StripSpec(s);
    }
    assert Negative(s) == neg by {
      if !neg { assert s[0] == w[0]; }
    }
    assert Unsigned(s) == w + "." + f by {
      if neg { assert s == "-" + (w + "." + f); } else { assert s[0] == w[0]; }
    }
  }

  /** The first point of `w.f` follows the digits `w`. */
  lemma PointPosition(w: string, f: string)
    requires AllDigits(w)
    ensures IndexOf(w + "." + f, '.') == |w|
  {
    var body := w + "." + f;
    assert body[|w|] == '.';
    assert forall k :: 0 <= k < |w| ==> body[k] == w[k];
  }

  /** How `float()` reads a literal made of an optional minus sign, digits, a point and digits. */
  lemma ParsePointLiteral(neg: bool, w: string, f: string)
    requires w != [] && f != [] && AllDigits(w) && AllDigits(f)
    ensures ParseDecimal((if neg then "-" else "") + w + "." + f)
         == Some(Normalise(Decimal(Signed(neg, DigitsValue(w + f)), |f|)))
  {
    PointLiteralShape(neg, w, f);
    PointLiteralValue(neg, w, f);
  }

  lemma PointLiteralValue(neg: bool, w: string, f: string)
    requires |w| + |f| > 0 && AllDigits(w) && AllDigits(f)
    ensures DecimalLiteral(neg, w + "." + f) == Some(Normalise(Decimal(Signed(neg, DigitsValue(w + f)), |f|)))
  {
    var body := w + "." + f;
    PointPosition(w, f);
    assert body[..|w|] == w;
    assert body[|w| + 1..] == f;
    DigitsValueAppend(w, f);
  }

  /** The integer part and the fraction digits `FormatDecimal` writes for a number of magnitude `a`. */
  function WholeDigits(a: nat, scale: nat): string {
    DivBounds(a, Pow10(scale));
    FormatNat(a / Pow10(scale))
  }

  function FractionDigits(a: nat, scale: nat): (r: string)
    ensures r != [] && AllDigits(r)
  {
    var p := Pow10(scale);
    DivBounds(a, p);
    if scale == 0 then "0" else PadDigits(a % p, scale)
  }

  /** Together, the two digit strings spell out `a`, shifted one place further when the scale is 0. */
  lemma DigitsSpellMagnitude(a: nat, scale: nat)
    ensures AllDigits(WholeDigits(a, scale) + FractionDigits(a, scale))
    ensures DigitsValue(WholeDigits(a, scale) + FractionDigits(a, scale)) == if scale == 0 then 10 * a else a
    ensures |FractionDigits(a, scale)| == if scale == 0 then 1 else scale
  {
    if scale == 0 {
      WholeDigitsScaleZero(a);
    } else {
      WholeDigitsScaled(a, scale);
    }
  }

  lemma WholeDigitsScaleZero(a: nat)
    ensures AllDigits(WholeDigits(a, 0) + FractionDigits(a, 0))
    ensures DigitsValue(WholeDigits(a, 0) + FractionDigits(a, 0)) == 10 * a
    ensures |FractionDigits(a, 0)| == 1
  {
    assert Pow10(0) == 1;
    assert a / 1 == a;
    var w, f := WholeDigits(a, 0), FractionDigits(a, 0);
    assert w == FormatNat(a);
    assert f == "0";
    FormatNatValue(a);
    DigitsValueAppend(w, f);
    assert DigitsValue(f) == 0 by {
      assert f == [] + ['0'];
    }
    assert Shift(a, 1) == 10 * a by {
      assert Shift(a, 0) == a;
    }
  }

  lemma WholeDigitsScaled(a: nat, scale: nat)
    requires scale > 0
    ensures AllDigits(WholeDigits(a, scale) + FractionDigits(a, scale))
    ensures DigitsValue(WholeDigits(a, scale) + FractionDigits(a, scale)) == a
    ensures |FractionDigits(a, scale)| == scale
  {
    var p := Pow10(scale);
    DivBounds(a, p);
    var q, m := a / p, a % p;
    var w, f := WholeDigits(a, scale), FractionDigits(a, scale);
    assert w == FormatNat(q);
    assert f == PadDigits(m, scale);
    FormatNatValue(q);
    PadDigitsValue(m, scale);
    DigitsValueAppend(w, f);
    ShiftIsProduct(q, scale);
    DivMod(a, p);
  }

  /** Euclidean division splits a natural number into quotient and remainder. */
  lemma DivMod(a: nat, p: nat)
    requires p > 0
    ensures a == (a / p) * p + a % p
  {
  }

  lemma FormatDecimalParts(d: Decimal)
    ensures var a := if d.units < 0 then -d.units else d.units;
      FormatDecimal(d) == (if d.units < 0 then "-" else "") + WholeDigits(a, d.scale) + "." + FractionDigits(a, d.scale)
  {
  }

  /** What the writers put into a price cell, the readers parse back to the same number. */
  lemma ParseFormatDecimal(d: Decimal)
    requires Normal(d)
    ensures ParseDecimal(FormatDecimal(d)) == Some(d)
  {
    var neg := d.units < 0;
    var a: nat := if neg then -d.units else d.units;
    var w, f := WholeDigits(a, d.scale), FractionDigits(a, d.scale);
    FormatDecimalParts(d);
    DigitsSpellMagnitude(a, d.scale);
    assert w != [] by {
      DivBounds(a, Pow10(d.scale));
    }
    ParsePointLiteral(neg, w, f);
    if d.scale == 0 {
      assert Signed(neg, 10 * a) == 10 * d.units;
      NormaliseTenfold(d.units);
    } else {
      assert Signed(neg, a) == d.units;
    }
  }

  lemma NormaliseTenfold(u: int)
    ensures Normalise(Decimal(10 * u, 1)) == Decimal(u, 0)
  {
    assert (10 * u) % 10 == 0 && (10 * u) / 10 == u;
  }

  lemma {:induction false} ShiftAdd(x: int, a: nat, b: nat)
    ensures Shift(Shift(x, a), b) == Shift(x, a + b)
  {
    if b > 0 {
      ShiftAdd(x, a, b - 1);
    }
  }

  lemma {:induction false} ShiftInjective(x: int, y: int, k: nat)
    requires Shift(x, k) == Shift(y, k)
    ensures x == y
  {
    if k > 0 {
      ShiftInjective(x, y, k - 1);
    }
  }

  /** A normal decimal and an integer stand for the same number only when the decimal has scale 0. */
  lemma NormalIntegerValue(d: Decimal, h: int)
    requires Normal(d) && Shift(h, d.scale) == d.units
    ensures d == Decimal(h, 0)
  {
  }

  /** Python's `round(x)` for a float: the nearest integer, ties going to the even one. */
  function Round(d: Decimal): (r: int)
    ensures var p := Pow10(d.scale); 0 - p <= 2 * d.units - 2 * (p * r) <= p
    ensures var p := Pow10(d.scale); (2 * d.units - 2 * (p * r) == p || 2 * d.units - 2 * (p * r) == 0 - p) ==> r % 2 == 0
  {
    var p := Pow10(d.scale);
    DivBounds(d.units, p);
    var q := d.units / p;
    var m := d.units - p * q;
    assert p * (q + 1) == p * q + p;
    if 2 * m < p then q
    else if 2 * m > p then q + 1
    else if q % 2 == 0 then q
    else q + 1
  }

  /** `round()` of a number that is already an integer is that integer. */
  lemma RoundExact(d: Decimal, h: int)
    requires Shift(h, d.scale) == d.units
    ensures Round(d) == h
  {
    ShiftIsProduct(h, d.scale);
    NearestMultiple(Pow10(d.scale), d.units, h, Round(d));
  }

  /** If `u = p * h` lies within half of `p` of `p * r`, then `r` is `h`. */
  lemma NearestMultiple(p: int, u: int, h: int, r: int)
    requires p > 0 && u == h * p
    requires 0 - p <= 2 * u - 2 * (p * r) <= p
    ensures r == h
  {
    var e := h - r;
    assert u - p * r == p * e;
  }

  /** `str(n)` has no surrounding white space; its sign is a leading minus exactly when `n < 0`. */
  lemma IntLiteralShape(n: int)
    ensures var f := FormatInt(n);
      Strip(f) == f && Negative(f) == (n < 0) && Unsigned(f) == FormatNat(if n < 0 then -n else n)
  {
    var f := FormatInt(n);
    var digits := FormatNat(if n < 0 then -n else n);
    assert IsDigit(digits[0]) && IsDigit(digits[|digits| - 1]);
    assert f[|f| - 1] == digits[|digits| - 1];
    assert Trimmed(f);
    StripSpec(f);
    if n < 0 {
      assert f == "-" + digits;
    }
  }

  /** `float()` of a literal with no point: the integer its digits spell. */
  lemma DigitsLiteralValue(neg: bool, digits: string)
    requires digits != [] && AllDigits(digits)
    ensures DecimalLiteral(neg, digits) == Some(Decimal(Signed(neg, DigitsValue(digits)), 0))
  {
    assert IndexOf(digits, '.') == |digits|;
    assert digits[..|digits|] + [] == digits;
  }

  /** What `str(n)` writes, `float()` reads back as the same number. */
  lemma ParseFormatIntAsDecimal(n: int)
    ensures ParseDecimal(FormatInt(n)) == Some(FromInt(n))
  {
    var m := if n < 0 then -n else n;
    IntLiteralShape(n);
    FormatNatValue(m);
    DigitsLiteralValue(n < 0, FormatNat(m));
  }

  /** A sign the literal grammar allows in front of the digits. */
  predicate Sign(sign: string) {
    sign == "" || sign == "-" || sign == "+"
  }

  /** A sign in front of a body that does not itself start with a sign is dropped by `Unsigned`,
      and it makes the literal negative exactly when it is a minus. */
  lemma SignedBody(sign: string, body: string)
    requires Sign(sign) && body != [] && body[0] != '-' && body[0] != '+'
    ensures Unsigned(sign + body) == body && Negative(sign + body) == (sign == "-")
  {
    if sign == "" {
      assert sign + body == body;
    } else {
      assert (sign + body)[1..] == body;
    }
  }

  /** How `int()` reads a signed digit string padded with white space: " 080" is 80, "+5" is 5. */
  lemma ParseDigitLiteral(pre: string, sign: string, digits: string, post: string)
    requires AllSpace(pre) && AllSpace(post) && Sign(sign)
    requires digits != [] && AllDigits(digits)
    ensures ParseInt(pre + sign + digits + post) == Some(Signed(sign == "-", DigitsValue(digits)))
  {
    var t := sign + digits;
    assert t[0] == digits[0] || t[0] == sign[0];
    assert t[|t| - 1] == digits[|digits| - 1];
    StripPadded(pre, t, post);
    assert pre + sign + digits + post == pre + t + post;
    SignedBody(sign, digits);
  }

  /** How `float()` reads a signed literal with a point, padded with white space; either side of
      the point may be empty ("5.", ".5") but not both. */
  lemma ParsePaddedPoint(pre: string, sign: string, w: string, f: string, post: string)
    requires AllSpace(pre) && AllSpace(post) && Sign(sign)
    requires |w| + |f| > 0 && AllDigits(w) && AllDigits(f)
    ensures ParseDecimal(pre + sign + w + "." + f + post)
         == Some(Normalise(Decimal(Signed(sign == "-", DigitsValue(w + f)), |f|)))
  {
    var body := w + "." + f;
    var t := sign + body;
    PointCore(sign, w, f);
    StripPadded(pre, t, post);
    PointRegroup(pre, sign, w, f, post);
    PointLiteralValue(sign == "-", w, f);
  }

  lemma PointRegroup(pre: string, sign: string, w: string, f: string, post: string)
    ensures pre + sign + w + "." + f + post == pre + (sign + (w + "." + f)) + post
  {
  }

  /** Digits around a point begin with a digit or the point and end with one, never white space
      or a sign. */
  lemma PointBodyEnds(w: string, f: string)
    requires AllDigits(w) && AllDigits(f)
    ensures var body := w + "." + f;
      && (body[0] == '.' || IsDigit(body[0]))
      && (body[|body| - 1] == '.' || IsDigit(body[|body| - 1]))
  {
    var body := w + "." + f;
    if w != [] { assert body[0] == w[0]; } else { assert body[0] == '.'; }
    if f != [] { assert body[|body| - 1] == f[|f| - 1]; } else { assert body[|body| - 1] == '.'; }
  }

  /** A signed literal with a point is trimmed, and its body is the part after the sign. */
  lemma PointCore(sign: string, w: string, f: string)
    requires Sign(sign) && AllDigits(w) && AllDigits(f)
    ensures var t := sign + (w + "." + f);
      t != [] && Trimmed(t) && Unsigned(t) == w + "." + f && Negative(t) == (sign == "-")
  {
    var body := w + "." + f;
    var t := sign + body;
    PointBodyEnds(w, f);
    SignedBody(sign, body);
    assert !IsSpace(body[0]) && !IsSpace(body[|body| - 1]);
    if sign == "" {
      assert t == body;
    } else {
      assert t[0] == sign[0] && t[|t| - 1] == body[|body| - 1];
      assert !IsSpace(t[0]);
    }
  }

  /** How `float()` reads a signed digit string without a point, padded with white space. */
  lemma ParsePaddedWhole(pre: string, sign: string, digits: string, post: string)
    requires AllSpace(pre) && AllSpace(post) && Sign(sign)
    requires digits != [] && AllDigits(digits)
    ensures ParseDecimal(pre + sign + digits + post) == Some(FromInt(Signed(sign == "-", DigitsValue(digits))))
  {
    var t := sign + digits;
    assert t[0] == digits[0] || t[0] == sign[0];
    assert t[|t| - 1] == digits[|digits| - 1];
    StripPadded(pre, t, post);
    assert pre + sign + digits + post == pre + t + post;
    SignedBody(sign, digits);
    DigitsLiteralValue(sign == "-", digits);
  }

  /** `int(" 080")` is 80: white space and a leading zero are accepted. */
  lemma PaddedIntExample()
    ensures ParseInt(" 080") == Some(80)
  {
    assert AllSpace(" ") && AllSpace("") && AllDigits("080");
    ParseDigitLiteral(" ", "", "080", "");
    assert " " + "" + "080" + "" == " 080";
    assert DigitsValue("080") == 80 by { assert "080"[..2] == "08" && "08"[..1] == "0"; }
  }

  /** `int("+5")` is 5. */
  lemma PlusIntExample()
    ensures ParseInt("+5") == Some(5)
  {
    assert AllSpace("") && AllDigits("5");
    ParseDigitLiteral("", "+", "5", "");
    assert "" + "+" + "5" + "" == "+5";
    assert DigitsValue("5") == 5 by { assert "5"[..0] == ""; }
  }

  /** `float("5.")` is 5.0. */
  lemma TrailingPointExample()
    ensures ParseDecimal("5.") == Some(Decimal(5, 0))
  {
    assert AllSpace("") && AllDigits("5") && AllDigits("");
    ParsePaddedPoint("", "", "5", "", "");
    assert "" + "" + "5" + "." + "" + "" == "5.";
    assert "5" + "" == "5";
    assert DigitsValue("5") == 5 by { assert "5"[..0] == ""; }
  }

  /** `float(" .5")` is 0.5. */
  lemma LeadingPointExample()
    ensures ParseDecimal(" .5") == Some(Decimal(5, 1))
  {
    assert AllSpace(" ") && AllSpace("") && AllDigits("5") && AllDigits("");
    ParsePaddedPoint(" ", "", "", "5", "");
    assert " " + "" + "" + "." + "5" + "" == " .5";
    assert "" + "5" == "5";
    assert DigitsValue("5") == 5 by { assert "5"[..0] == ""; }
    assert Signed(false, 5) == 5;
    assert Normalise(Decimal(5, 1)) == Decimal(5, 1);
  }
}
