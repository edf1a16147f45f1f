/** Numbers as the pipeline reads and writes them: the close price a quote
    response carries, Python's `round(x, 2)`, Python's `float(text)` and
    the text `str(x)` gives for a float.

    A float is modelled by the exact decimal value it stands for; the
    binary representation of Python floats is not part of this model. */
module Numbers {
  import opened Wrappers
  import opened Text

  function Pow10(k: nat): (r: nat)
    ensures r >= 1
  {
    if k == 0 then 1 else 10 * Pow10(k - 1)
  }

  lemma {:induction false} Pow10Add(a: nat, b: nat)
    ensures Pow10(a + b) == Pow10(a) * Pow10(b)
  {
    if b > 0 {
      Pow10Add(a, b - 1);
      assert Pow10(a + b) == 10 * Pow10(a + b - 1);
      assert Pow10(a) * Pow10(b) == Pow10(a) * (10 * Pow10(b - 1)) == 10 * (Pow10(a) * Pow10(b - 1));
    }
  }

  function Abs(x: int): nat {
    if x < 0 then -x else x
  }

  // ---------------------------------------------------------------------
  // Digit strings

  predicate IsDigit(c: char) {
    '0' <= c <= '9'
  }

  /** Every character of `s` is a decimal digit. */
  predicate AllDigits(s: string) {
    forall i :: 0 <= i < |s| ==> IsDigit(s[i])
  }

  function DigitChar(d: nat): (c: char)
    requires d < 10
    ensures IsDigit(c) && c as int - '0' as int == d
  {
    ('0' as int + d) as char
  }

  /** The value of a decimal digit. */
  function DigitValue(c: char): (v: nat)
    ensures v < 10
  {
    if IsDigit(c) then c as int - '0' as int else 0
  }

  /** The value of a string of decimal digits, most significant first. */
  function DigitsValue(s: string): nat
    decreases |s|
  {
    if s == [] then 0 else 10 * DigitsValue(s[..|s| - 1]) + DigitValue(s[|s| - 1])
  }

  /** Python's `str(n)` for an integer `n >= 0`. */
  function NatToString(n: nat): (s: string)
    ensures |s| > 0 && AllDigits(s)
  {
    if n < 10 then
      var s := [DigitChar(n)];
      assert s[..0] == [];
      s
    else
      var p := NatToString(n / 10);
      var s := p + [DigitChar(n % 10)];
      assert s[..|s| - 1] == p;
      s
  }

  /** Python's `str(i)` for any integer `i`. */
  function IntToString(i: int): string {
    if i < 0 then "-" + NatToString(-i) else NatToString(i)
  }

  /** `k` zero digits. */
  function Zeros(k: nat): (s: string)
    ensures |s| == k
  {
    if k == 0 then "" else Zeros(k - 1) + "0"
  }

  lemma {:induction false} NatToStringValue(n: nat)
    ensures DigitsValue(NatToString(n)) == n
  {
    if n >= 10 {
      NatToStringValue(n / 10);
      var s := NatToString(n);
      assert s[..|s| - 1] == NatToString(n / 10);
    } else {
      assert NatToString(n)[..0] == [];
    }
  }

  lemma {:induction false} DigitsValueAppend(a: string, b: string)
    ensures DigitsValue(a + b) == DigitsValue(a) * Pow10(|b|) + DigitsValue(b)
    decreases |b|
  {
    if b == [] {
      assert a + b == a;
    } else {
      var b' := b[..|b| - 1];
      var c := DigitValue(b[|b| - 1]);
      DigitsValueAppend(a, b');
      AppendLast(a, b);
      var A, P, B' := DigitsValue(a), Pow10(|b'|), DigitsValue(b');
      assert DigitsValue(a + b) == 10 * DigitsValue(a + b') + c;
      assert Pow10(|b|) == 10 * P;
      MulTen(A, P);
    }
  }

  lemma {:induction false} AllDigitsAppend(a: string, b: string)
    requires AllDigits(a) && AllDigits(b)
    ensures AllDigits(a + b)
    decreases |b|
  {
    if b == [] {
      assert a + b == a;
    } else {
      AllDigitsAppend(a, b[..|b| - 1]);
      AppendLast(a, b);
    }
  }

  /** A digit string split anywhere gives two digit strings. */
  lemma {:induction false} DigitSlices(d: string, k: nat)
    requires AllDigits(d) && k <= |d|
    ensures AllDigits(d[..k]) && AllDigits(d[k..]) && d[..k] + d[k..] == d
  {
  }

  /** A digit string with a digit in front. */
  lemma {:induction false} DigitsCons(c: char, s: string)
    requires IsDigit(c) && AllDigits(s)
    ensures AllDigits([c] + s)
  {
  }

  /** `a + b` without its last character is `a` plus `b` without it. */
  lemma {:induction false} AppendLast(a: string, b: string)
    requires b != []
    ensures (a + b)[..|a + b| - 1] == a + b[..|b| - 1]
    ensures (a + b)[|a + b| - 1] == b[|b| - 1]
  {
  }

  lemma {:induction false} MulTen(x: int, y: int)
    ensures 10 * (x * y) == x * (10 * y)
  {
  }

  lemma {:induction false} DigitsValueOfZeros(k: nat)
    ensures AllDigits(Zeros(k)) && DigitsValue(Zeros(k)) == 0
  {
    if k > 0 {
      DigitsValueOfZeros(k - 1);
      var z := Zeros(k);
      assert z[..k - 1] == Zeros(k - 1);
    } else {
      assert Zeros(0) == [];
    }
  }

  /** Leading zeros do not change the value of a digit string. */
  lemma {:induction false} LeadingZeros(k: nat, s: string)
    requires AllDigits(s)
    ensures AllDigits(Zeros(k) + s) && DigitsValue(Zeros(k) + s) == DigitsValue(s)
  {
    DigitsValueOfZeros(k);
    DigitsValueAppend(Zeros(k), s);
  }

  // ---------------------------------------------------------------------
  // Close prices and round(x, 2)

  /** A close price as the quote response's JSON carries it: an integer
      literal (which Python's `json` turns into an `int`), a number with a
      fraction or exponent (which it turns into a `float`), or one of the
      tokens `Infinity`, `-Infinity` and `NaN`, which `json.loads` accepts
      as the float infinities and NaN. A finite float is
      `(-1)^negative * digits / 10^scale`; a negative one with no digits
      is `-0.0`. */
  datatype Close =
    | IntClose(whole: int)
    | FloatClose(negative: bool, digits: nat, scale: nat)
    | InfinityClose(negative: bool)
    | NaNClose

  /** Rounding the magnitude `digits / 10^scale` to hundredths, as
      Python's `round(x, 2)` does: the nearest hundredth, and of two
      equally near ones the even one. Ties to even is symmetric about
      zero, so a negative float rounds to the negated rounding of its
      magnitude. */
  function RoundHundredths(digits: nat, scale: nat): (h: nat)
    ensures 2 * Abs(digits * 100 - h * Pow10(scale)) <= Pow10(scale)
    ensures 2 * Abs(digits * 100 - h * Pow10(scale)) == Pow10(scale) ==> h % 2 == 0
  {
    if scale <= 2 then
      var h: nat := digits * Pow10(2 - scale);
      ExactRounding(digits, scale, h);
      h
    else
      var p := Pow10(scale - 2);
      var q: nat := digits / p;
      var r := digits % p;
      var h := if 2 * r < p then q else if 2 * r > p then q + 1 else if q % 2 == 0 then q else q + 1;
      RoundingError(digits, p, q, r, h, scale);
      h
  }

  lemma {:induction false} ExactRounding(digits: nat, scale: nat, h: int)
    requires scale <= 2 && h == digits * Pow10(2 - scale)
    ensures digits * 100 - h * Pow10(scale) == 0
  {
    Pow10Add(2 - scale, scale);
    assert Pow10(2) == 100;
    assert h * Pow10(scale) == digits * (Pow10(2 - scale) * Pow10(scale));
  }

  lemma {:induction false} Hundredfold(x: int, y: int)
    ensures x * (100 * y) == 100 * (x * y)
  {
  }

  lemma {:induction false} RoundingError(digits: nat, p: nat, q: int, r: int, h: int, scale: nat)
    requires scale > 2 && p == Pow10(scale - 2) && q == digits / p && r == digits % p
    requires h == (if 2 * r < p then q else if 2 * r > p then q + 1 else if q % 2 == 0 then q else q + 1)
    ensures 2 * Abs(digits * 100 - h * Pow10(scale)) <= Pow10(scale)
    ensures 2 * Abs(digits * 100 - h * Pow10(scale)) == Pow10(scale) ==> h % 2 == 0
  {
    Pow10Add(2, scale - 2);
    assert Pow10(2) == 100;
    RoundingErrorOf(digits, p, q, r, h);
  }

  /** Rounding `digits / p` to the nearest integer, ties to even, misses
      by at most half of `p`, counted in hundredths. */
  lemma {:induction false} RoundingErrorOf(digits: int, p: nat, q: int, r: int, h: int)
    requires p > 0 && q == digits / p && r == digits % p
    requires h == (if 2 * r < p then q else if 2 * r > p then q + 1 else if q % 2 == 0 then q else q + 1)
    ensures 2 * Abs(digits * 100 - h * (100 * p)) <= 100 * p
    ensures 2 * Abs(digits * 100 - h * (100 * p)) == 100 * p ==> h % 2 == 0
  {
    var qp := q * p;
    assert digits == qp + r && 0 <= r < p;
    Hundredfold(h, p);
    if h == q {
      assert digits * 100 - h * (100 * p) == 100 * r;
    } else {
      assert h * p == qp + p;
      assert digits * 100 - h * (100 * p) == 100 * r - 100 * p;
    }
  }

  /** The price an extracted record holds: `round(close, 2)` keeps an
      integer close as it is, turns a finite float close into a signed
      number of hundredths, `-0.0` included, and gives an infinity or NaN
      back unchanged. */
  datatype Price =
    | Whole(value: int)
    | Hundredths(negative: bool, cents: nat)
    | InfinityPrice(negative: bool)
    | NaNPrice

  /** `round(close, 2)`. */
  function RoundPrice(c: Close): Price {
    match c
    case IntClose(i) => Whole(i)
    case FloatClose(negative, digits, scale) => Hundredths(negative, RoundHundredths(digits, scale))
    case InfinityClose(negative) => InfinityPrice(negative)
    case NaNClose => NaNPrice
  }

  /** An integer close is kept as it is; a finite float close becomes the
      hundredth nearest to it, the even one of two equally near, with the
      float's sign even when the hundredth is zero; an infinity or NaN is
      returned as it is. */
  lemma {:induction false} RoundPriceNearest(c: Close)
    ensures c.IntClose? <==> RoundPrice(c).Whole?
    ensures c.IntClose? ==> RoundPrice(c).value == c.whole
    ensures c.InfinityClose? <==> RoundPrice(c).InfinityPrice?
    ensures c.InfinityClose? ==> RoundPrice(c).negative == c.negative
    ensures c.NaNClose? <==> RoundPrice(c).NaNPrice?
    ensures c.FloatClose? ==> RoundPrice(c).negative == c.negative
    ensures c.FloatClose? ==> var err := 2 * Abs(c.digits * 100 - RoundPrice(c).cents * Pow10(c.scale));
      err <= Pow10(c.scale) && (err == Pow10(c.scale) ==> RoundPrice(c).cents % 2 == 0)
  {
  }

  /** `round(-0.001, 2)` is `-0.0`, and `str` writes it with its sign. */
  lemma {:induction false} NegativeZeroPrice()
    ensures RoundPrice(FloatClose(true, 1, 3)) == Hundredths(true, 0)
    ensures PriceNumber(Hundredths(true, 0)) == Finite(true, 0, 0)
    ensures FormatPrice(Hundredths(true, 0)) == "-0.0"
  {
    assert Pow10(1) == 10;
  }

  // ---------------------------------------------------------------------
  // Python floats as exact decimals

  /** A Python float: `(-1)^negative * mantissa * 10^exponent`, an infinity
      or NaN. `negative` on a zero mantissa is the float `-0.0`. */
  datatype Number = Finite(negative: bool, mantissa: nat, exponent: int) | Infinity(negative: bool) | NaN

  /** One representation per value: no trailing zero digit in the
      mantissa, and zero written with exponent 0. */
  predicate Canonical(n: Number) {
    n.Finite? ==> if n.mantissa == 0 then n.exponent == 0 else n.mantissa % 10 != 0
  }

  /** A float as its canonical representation. */
  type Float = n: Number | Canonical(n) witness NaN

  /** The canonical representation of `(-1)^negative * m * 10^e`. */
  function Normalize(negative: bool, m: nat, e: int): (n: Number)
    ensures n.Finite? && Canonical(n) && n.negative == negative
    ensures m == 0 <==> n.mantissa == 0
    decreases m
  {
    if m == 0 then Finite(negative, 0, 0)
    else if m % 10 == 0 then Normalize(negative, m / 10, e + 1)
    else Finite(negative, m, e)
  }

  /** `Normalize` only strips trailing zero digits: it keeps the value. */
  lemma {:induction false} NormalizeValue(negative: bool, m: nat, e: int)
    requires m != 0
    ensures var n := Normalize(negative, m, e);
      n.exponent >= e && m == n.mantissa * Pow10(n.exponent - e)
    decreases m
  {
    if m % 10 == 0 {
      NormalizeValue(negative, m / 10, e + 1);
      var n := Normalize(negative, m / 10, e + 1);
      assert Pow10(n.exponent - e) == 10 * Pow10(n.exponent - (e + 1));
      MulTen(n.mantissa, Pow10(n.exponent - (e + 1)));
    }
  }

  lemma {:induction false} NormalizeScale(negative: bool, m: nat, e: int, j: nat)
    ensures Normalize(negative, m * Pow10(j), e - j) == Normalize(negative, m, e)
  {
    if j > 0 && m != 0 {
      var k := m * Pow10(j - 1);
      assert Pow10(j) == 10 * Pow10(j - 1);
      MulTen(m, Pow10(j - 1));
      NormalizeScale(negative, m, e, j - 1);
      NormalizeTen(negative, k, e - j);
    }
  }

  /** A trailing zero digit moves into the exponent. */
  lemma {:induction false} NormalizeTen(negative: bool, k: nat, e: int)
    ensures Normalize(negative, 10 * k, e) == Normalize(negative, k, e + 1)
  {
    if k != 0 {
      assert (10 * k) % 10 == 0 && (10 * k) / 10 == k;
    }
  }

  /** The float `round(x, 2)` yields for a float close, and the one an
      integer price stands for once it is parsed back as a float. */
  function PriceNumber(p: Price): (n: Number)
    ensures Canonical(n)
    ensures n.Finite? <==> p.Whole? || p.Hundredths?
  {
    match p
    case Whole(i) => Normalize(i < 0, Abs(i), 0)
    case Hundredths(negative, h) => Normalize(negative, h, -2)
    case InfinityPrice(negative) => Infinity(negative)
    case NaNPrice => NaN
  }

  // ---------------------------------------------------------------------
  // str(x) for a float

  function Sign(negative: bool): string {
    if negative then "-" else ""
  }

  function Pad2(s: string): string {
    if |s| < 2 then "0" + s else s
  }

  /** The digits Python's `repr` writes for `m * 10^e`: positional
      notation while the decimal point falls at most 16 digits after and
      at most 3 before the first digit, scientific notation (with a signed
      exponent of at least two digits) otherwise. */
  function FormatMagnitude(m: nat, e: int): string {
    if m == 0 then "0.0"
    else
      var d := NatToString(m);
      var point := |d| + e;
      if -3 <= point <= 16 then
        if e >= 0 then Integral(d, e)
        else if point > 0 then PointInside(d, point)
        else SmallFraction(d, -point)
      else Scientific(d, |d| + e - 1)
  }

  /** `ddd000.0`: the digits, `zeros` zeros and an empty fraction. */
  function Integral(d: string, zeros: nat): string {
    d + Zeros(zeros) + "." + "0"
  }

  /** `dd.ddd`: the point after the first `point` digits. */
  function PointInside(d: string, point: nat): string
    requires point <= |d|
  {
    d[..point] + "." + d[point..]
  }

  /** `0.000ddd`: `zeros` zeros between the point and the digits. */
  function SmallFraction(d: string, zeros: nat): string {
    "0" + "." + (Zeros(zeros) + d)
  }

  /** `d.ddde+XX`, `d.ddde-XX`, or without the point for one digit. */
  function Scientific(d: string, x: int): string
    requires |d| > 0
  {
    ScientificSignificand(d) + "e" + ScientificExponent(x)
  }

  function ScientificSignificand(d: string): string
    requires |d| > 0
  {
    if |d| > 1 then d[..1] + "." + d[1..] else d
  }

  function ScientificExponent(x: int): string {
    (if x < 0 then "-" else "+") + Pad2(NatToString(Abs(x)))
  }

  /** Python's `str(x)` for a float `x`. */
  function FormatNumber(n: Number): string
    requires Canonical(n)
  {
    match n
    case NaN => "nan"
    case Infinity(negative) => Sign(negative) + "inf"
    case Finite(negative, m, e) => Sign(negative) + FormatMagnitude(m, e)
  }

  /** The text an extracted price is written as: `str(round(close, 2))`. */
  function FormatPrice(p: Price): string {
    match p
    case Whole(i) => IntToString(i)
    case _ => FormatNumber(PriceNumber(p))
  }

  // ---------------------------------------------------------------------
  // float(text)

  function ToLowerAscii(c: char): char {
    if 'A' <= c <= 'Z' then (c as int + 32) as char else c
  }

  /** `s` spells `word` (given in lower case) in any letter case. */
  predicate SpellsIgnoringCase(s: string, word: string) {
    |s| == |word| && forall i :: 0 <= i < |s| ==> ToLowerAscii(s[i]) == word[i]
  }

  /** Python's `digitpart`: digits, with single underscores allowed
      between two digits. */
  predicate IsDigitPart(s: string)
    decreases |s|
  {
    |s| > 0 && IsDigit(s[0]) &&
    (|s| == 1 || IsDigitPart(s[1..]) || (s[1] == '_' && IsDigitPart(s[2..])))
  }

  function RemoveUnderscores(s: string): string {
    if s == [] then [] else (if s[0] == '_' then [] else [s[0]]) + RemoveUnderscores(s[1..])
  }

  lemma {:induction false} DigitPartDigits(s: string)
    requires IsDigitPart(s)
    ensures AllDigits(RemoveUnderscores(s))
    decreases |s|
  {
    var rest := RemoveUnderscores(s[1..]);
    if |s| == 1 {
      assert rest == [];
    } else if IsDigitPart(s[1..]) {
      DigitPartDigits(s[1..]);
    } else {
      DigitPartDigits(s[2..]);
      assert s[1..][1..] == s[2..];
    }
    DigitsCons(s[0], rest);
  }

  lemma {:induction false} AllDigitsArePart(s: string)
    requires AllDigits(s) && |s| > 0
    ensures IsDigitPart(s) && RemoveUnderscores(s) == s
    decreases |s|
  {
    DigitsTail(s);
    if |s| > 1 {
      AllDigitsArePart(s[1..]);
    } else {
      assert s[1..] == [];
    }
  }

  /** A digit string starts with a digit and goes on with digits. */
  lemma {:induction false} DigitsTail(s: string)
    requires AllDigits(s) && |s| > 0
    ensures IsDigit(s[0]) && AllDigits(s[1..])
  {
  }

  /** The first index holding `a` or `b`, or `|s|` when there is none. */
  function IndexOfAny(s: string, a: char, b: char): (k: nat)
    ensures k <= |s|
  {
    if s == [] || s[0] == a || s[0] == b then 0 else 1 + IndexOfAny(s[1..], a, b)
  }

  /** `IndexOfAny` finds the first occurrence of `a` or `b`. */
  lemma {:induction false} IndexOfAnyFirst(s: string, a: char, b: char)
    ensures var k := IndexOfAny(s, a, b);
      && (forall i :: 0 <= i < k ==> s[i] != a && s[i] != b)
      && (k < |s| ==> s[k] == a || s[k] == b)
  {
    if s != [] && s[0] != a && s[0] != b {
      IndexOfAnyFirst(s[1..], a, b);
      var k := IndexOfAny(s, a, b);
      forall i | 0 <= i < k ensures s[i] != a && s[i] != b {
        if i > 0 { assert s[i] == s[1..][i - 1]; }
      }
    }
  }

  lemma {:induction false} IndexOfAnyAt(x: string, y: string, a: char, b: char)
    requires a !in x && b !in x
    requires y != [] ==> y[0] == a || y[0] == b
    ensures IndexOfAny(x + y, a, b) == |x|
  {
    IndexOfAnyFirst(x + y, a, b);
    assert forall i :: 0 <= i < |x| ==> (x + y)[i] == x[i];
    assert y != [] ==> (x + y)[|x|] == y[0];
  }

  /** A float literal's digits without its decimal point, and how many
      of them follow the point. */
  datatype Significand = Significand(digits: nat, scale: nat)

  /** Python's `pointfloat` or `digitpart`: `d`, `d.`, `.d` or `d.d`. */
  function ParseSignificand(s: string): Option<Significand> {
    var j := IndexOfAny(s, '.', '.');
    SignificandOf(s[..j], if j < |s| then s[j + 1..] else "")
  }

  /** The significand with digit parts `whole` and `frac` either side of
      the decimal point, when they are well formed. */
  function SignificandOf(whole: string, frac: string): Option<Significand> {
    if (whole == [] || IsDigitPart(whole)) && (frac == [] || IsDigitPart(frac)) && (whole != [] || frac != []) then
      var w := RemoveUnderscores(whole);
      var f := RemoveUnderscores(frac);
      Some(Significand(DigitsValue(w + f), |f|))
    else None
  }

  /** The exponent after `e` or `E`: an optional sign and a `digitpart`. */
  function ParseExponent(s: string): Option<int> {
    var negative := |s| > 0 && s[0] == '-';
    var body := if |s| > 0 && (s[0] == '-' || s[0] == '+') then s[1..] else s;
    if IsDigitPart(body) then
      var v: int := DigitsValue(RemoveUnderscores(body));
      Some(if negative then -v else v)
    else None
  }

  /** The value `digits * 10^exponent` an unsigned literal spells, before
      it is brought to canonical form. */
  datatype Decimal = Decimal(digits: nat, exponent: int)

  /** An unsigned float literal: a significand, then optionally `e`/`E`
      and an exponent. */
  function ParseLiteral(s: string): Option<Decimal> {
    var k := IndexOfAny(s, 'e', 'E');
    DecimalOf(ParseSignificand(s[..k]), if k == |s| then Some(0) else ParseExponent(s[k + 1..]))
  }

  function DecimalOf(significand: Option<Significand>, exponent: Option<int>): Option<Decimal> {
    if significand.Some? && exponent.Some? then
      Some(Decimal(significand.value.digits, exponent.value - significand.value.scale))
    else None
  }

  /** The float an unsigned literal denotes, with the given sign. */
  function ParseUnsigned(negative: bool, s: string): (r: Option<Number>)
    ensures r.Some? ==> Canonical(r.value)
  {
    match ParseLiteral(s)
    case None => None
    case Some(x) => Some(Normalize(negative, x.digits, x.exponent))
  }

  /** The white space `float()` removes at both ends: what `str.isspace()`
      accepts, except the separators U+001C to U+001F, which CPython's
      number parser does not skip although `str.strip()` does. */
  predicate IsFloatSpace(c: char) {
    IsSpace(c) && !(0x1C <= c as int <= 0x1F)
  }

  /** `str.strip()` removes a leading U+001C, and `float()` reads a
      whole number, but `float()` rejects the number after U+001C. */
  lemma {:induction false} SeparatorNotSkipped(n: nat)
    ensures var d := NatToString(n);
      && Strip(['\U{1C}'] + d) == d
      && ParseNumber(d) == Some(Normalize(false, n, 0))
      && ParseNumber(['\U{1C}'] + d) == None
  {
    var d := NatToString(n);
    WholeRoundTrip(false, n);
    DigitIsNotSpace(d[0]);
    DigitIsNotSpace(d[|d| - 1]);
    TrimStartSkip('\U{1C}', d, IsSpace);
    StripUnchanged(d, IsSpace);
    SignedLiteral(false, d);
    assert Sign(false) + d == d;
    SeparatorRejected(d);
  }

  lemma {:induction false} SeparatorRejected(d: string)
    requires |d| > 0 && IsDigit(d[|d| - 1])
    ensures ParseNumber(['\U{1C}'] + d) == None
  {
    var t := ['\U{1C}'] + d;
    assert t[|t| - 1] == d[|d| - 1];
    DigitIsNotSpace(d[|d| - 1]);
    assert !IsFloatSpace(t[0]) && !IsFloatSpace(t[|t| - 1]);
    StripUnchanged(t, IsFloatSpace);
    assert ParseNumber(t) == ParseSigned(t);
    SeparatorNotLiteral(t);
  }

  lemma {:induction false} SeparatorNotLiteral(t: string)
    requires |t| > 0 && t[0] == '\U{1C}'
    ensures ParseSigned(t) == None
  {
    assert Sign(false) + t == t;
    SignRead(false, t);
    NoLiteral(t);
    assert ToLowerAscii(t[0]) == t[0];
    assert ParseBody(false, t) == ParseUnsigned(false, t);
  }

  /** A text that starts with neither a digit nor a point is not a
      decimal literal. */
  lemma {:induction false} NoLiteral(s: string)
    requires s != [] && !IsDigit(s[0]) && s[0] != '.'
    ensures ParseLiteral(s) == None
  {
    var k := IndexOfAny(s, 'e', 'E');
    var m := s[..k];
    if m != [] {
      assert m[0] == s[0];
      var j := IndexOfAny(m, '.', '.');
      assert j > 0;
      assert m[..j][0] == s[0];
    }
  }

  /** Python's `float(s)` on a string: surrounding white space, an optional
      sign, then `inf`, `infinity` or `nan` in any letter case, or a
      decimal literal of ASCII digits; `None` where Python raises
      `ValueError`. */
  function ParseNumber(s: string): (r: Option<Number>)
    ensures r.Some? ==> Canonical(r.value)
  {
    ParseSigned(StripBy(s, IsFloatSpace))
  }

  function ParseSigned(t: string): (r: Option<Number>)
    ensures r.Some? ==> Canonical(r.value)
  {
    var negative := |t| > 0 && t[0] == '-';
    var body := if |t| > 0 && (t[0] == '-' || t[0] == '+') then t[1..] else t;
    ParseBody(negative, body)
  }

  function ParseBody(negative: bool, body: string): (r: Option<Number>)
    ensures r.Some? ==> Canonical(r.value)
  {
    if SpellsIgnoringCase(body, "inf") || SpellsIgnoringCase(body, "infinity") then Some(Infinity(negative))
    else if SpellsIgnoringCase(body, "nan") then Some(NaN)
    else ParseUnsigned(negative, body)
  }

  /** `float(s)` succeeds. */
  predicate ParsesAsNumber(s: string) {
    ParseNumber(s).Some?
  }

  // ---------------------------------------------------------------------
  // float(str(x)) == x

  lemma {:induction false} DigitsAreDigitPart(s: string)
    requires AllDigits(s) && |s| > 0
    ensures IsDigitPart(s) && RemoveUnderscores(s) == s
    ensures '.' !in s && 'e' !in s && 'E' !in s
  {
    AllDigitsArePart(s);
    DigitsHaveNoMarks(s);
  }

  lemma {:induction false} DigitsHaveNoMarks(s: string)
    requires AllDigits(s)
    ensures '.' !in s && 'e' !in s && 'E' !in s
  {
  }

  /** A one-character prefix comes off again. */
  lemma {:induction false} DropFirst(c: char, s: string)
    ensures ([c] + s)[0] == c && ([c] + s)[1..] == s
  {
  }

  lemma {:induction false} SignificandPoint(w: string, f: string)
    requires AllDigits(w) && AllDigits(f) && |w| > 0 && |f| > 0
    ensures AllDigits(w + f)
    ensures ParseSignificand(w + "." + f) == Some(Significand(DigitsValue(w + f), |f|))
  {
    var y := "." + f;
    var s := w + y;
    assert s == w + "." + f;
    DigitsAreDigitPart(w);
    DigitsAreDigitPart(f);
    IndexOfAnyAt(w, y, '.', '.');
    assert s[..|w|] == w && s[|w| + 1..] == f;
    assert ParseSignificand(s) == SignificandOf(w, f);
    DigitsValueAppend(w, f);
    assert SignificandOf(w, f) == Some(Significand(DigitsValue(w + f), |f|));
  }

  lemma {:induction false} SignificandInteger(w: string) returns (g: Significand)
    requires AllDigits(w) && |w| > 0
    ensures ParseSignificand(w) == Some(g) && g.digits == DigitsValue(w) && g.scale == 0
  {
    g := Significand(DigitsValue(w), 0);
    DigitsAreDigitPart(w);
    IndexOfAnyAt(w, "", '.', '.');
    assert w + "" == w && w[..|w|] == w;
    assert RemoveUnderscores("") == "";
    assert w + RemoveUnderscores("") == w;
  }

  /** Without `e` or `E`, all of `s` is the significand. */
  lemma {:induction false} LiteralWhole(s: string)
    requires 'e' !in s && 'E' !in s
    ensures ParseLiteral(s) == DecimalOf(ParseSignificand(s), Some(0))
  {
    IndexOfAnyAt(s, "", 'e', 'E');
    assert s + "" == s && s[..|s|] == s;
  }

  /** The significand and the exponent of `mant e tail` are read apart. */
  lemma {:induction false} LiteralSplit(mant: string, tail: string)
    requires 'e' !in mant && 'E' !in mant
    ensures ParseLiteral(mant + "e" + tail) == DecimalOf(ParseSignificand(mant), ParseExponent(tail))
  {
    var y := "e" + tail;
    var s := mant + y;
    assert s == mant + "e" + tail;
    IndexOfAnyAt(mant, y, 'e', 'E');
    assert s[..|mant|] == mant && s[|mant| + 1..] == tail;
  }

  lemma {:induction false} ExponentOf(negative: bool, xs: string)
    requires AllDigits(xs) && |xs| > 0
    ensures ParseExponent((if negative then "-" else "+") + xs) == Some(if negative then -(DigitsValue(xs) as int) else DigitsValue(xs))
  {
    DropFirst(if negative then '-' else '+', xs);
    AllDigitsArePart(xs);
  }

  /** Reading a literal once its significand and its exponent are
      known. */
  lemma {:induction false} DecimalKnown(r: Option<Decimal>, significand: Option<Significand>, exponent: Option<int>, g: Significand, x: int)
    requires r == DecimalOf(significand, exponent)
    requires significand == Some(g) && exponent == Some(x)
    ensures r == Some(Decimal(g.digits, x - g.scale))
  {
  }

  /** A literal without an exponent reads as its significand. */
  lemma {:induction false} LiteralOfSignificand(mag: string, g: Significand) returns (x: Decimal)
    requires 'e' !in mag && 'E' !in mag && ParseSignificand(mag) == Some(g)
    ensures ParseLiteral(mag) == Some(x) && x.digits == g.digits && x.exponent == -(g.scale as int)
  {
    LiteralWhole(mag);
    DecimalKnown(ParseLiteral(mag), ParseSignificand(mag), Some(0), g, 0);
    x := Decimal(g.digits, 0 - g.scale);
  }

  /** A literal whose value is known reads as the canonical float of that
      value. */
  lemma {:induction false} UnsignedKnown(negative: bool, s: string, x: Decimal, n: Number)
    requires ParseLiteral(s) == Some(x)
    requires Normalize(negative, x.digits, x.exponent) == n
    ensures ParseUnsigned(negative, s) == Some(n)
  {
  }

  /** Parsing the digits `str` writes for a canonical magnitude gives it
      back; the digits start and end with a decimal digit. */
  lemma {:induction false} MagnitudeRoundTrip(negative: bool, m: nat, e: int)
    requires Canonical(Finite(negative, m, e))
    ensures var mag := FormatMagnitude(m, e);
      && |mag| > 0 && IsDigit(mag[0]) && IsDigit(mag[|mag| - 1])
      && ParseUnsigned(negative, mag) == Some(Finite(negative, m, e))
  {
    if m == 0 {
      ZeroRoundTrip(negative, e);
    } else {
      var point := |NatToString(m)| + e;
      if point < -3 || 16 < point {
        ScientificRoundTrip(negative, m, e);
      } else if e >= 0 {
        IntegralRoundTrip(negative, m, e);
      } else if point > 0 {
        PointRoundTrip(negative, m, e);
      } else {
        FractionRoundTrip(negative, m, e);
      }
    }
  }

  /** Zero is written `0.0`. */
  lemma {:induction false} ZeroRoundTrip(negative: bool, e: int)
    requires Canonical(Finite(negative, 0, e))
    ensures var mag := FormatMagnitude(0, e);
      && |mag| > 0 && IsDigit(mag[0]) && IsDigit(mag[|mag| - 1])
      && ParseUnsigned(negative, mag) == Some(Finite(negative, 0, e))
  {
    var z := Zeros(2);
    DigitsValueOfZeros(2);
    var g := PointSignificand(z, 1);
    assert z == "00";
    var mag := PointInside(z, 1);
    assert mag == "0.0";
    PointEnds(z, 1);
    var x := LiteralOfSignificand(mag, g);
    UnsignedKnown(negative, mag, x, Finite(negative, 0, e));
  }

  /** A whole number below `10^16`, written `ddd000.0`. */
  lemma {:induction false} IntegralRoundTrip(negative: bool, m: nat, e: int)
    requires Canonical(Finite(negative, m, e)) && m != 0 && e >= 0
    requires |NatToString(m)| + e <= 16
    ensures var mag := FormatMagnitude(m, e);
      && |mag| > 0 && IsDigit(mag[0]) && IsDigit(mag[|mag| - 1])
      && ParseUnsigned(negative, mag) == Some(Finite(negative, m, e))
  {
    var d := NatToString(m);
    var mag := Integral(d, e);
    assert FormatMagnitude(m, e) == mag;
    NatToStringValue(m);
    var x := IntegralDigits(d, e);
    NormalizeWhole(negative, m, e);
    UnsignedKnown(negative, mag, x, Finite(negative, m, e));
  }

  lemma {:induction false} IntegralDigits(d: string, zeros: nat) returns (x: Decimal)
    requires AllDigits(d) && |d| > 0
    ensures var mag := Integral(d, zeros);
      && |mag| > 0 && IsDigit(mag[0]) && IsDigit(mag[|mag| - 1])
      && ParseLiteral(mag) == Some(x) && x.digits == DigitsValue(d) * Pow10(zeros + 1) && x.exponent == -1
  {
    var mag := Integral(d, zeros);
    var g := IntegralSignificand(d, zeros);
    LiteralWhole(mag);
    DecimalKnown(ParseLiteral(mag), ParseSignificand(mag), Some(0), g, 0);
    x := Decimal(g.digits, 0 - g.scale);
    assert mag[0] == d[0];
  }

  /** `m * 10^(e + 1)` tenths are the canonical `m * 10^e`. */
  lemma {:induction false} NormalizeWhole(negative: bool, m: nat, e: nat)
    requires Canonical(Finite(negative, m, e))
    ensures Normalize(negative, m * Pow10(e + 1), -1) == Finite(negative, m, e)
  {
    NormalizeScale(negative, m, e, e + 1);
    NormalizeCanonical(negative, m, e);
  }

  lemma {:induction false} NormalizeCanonical(negative: bool, m: nat, e: int)
    requires Canonical(Finite(negative, m, e))
    ensures Normalize(negative, m, e) == Finite(negative, m, e)
  {
  }

  lemma {:induction false} IntegralSignificand(d: string, zeros: nat) returns (g: Significand)
    requires AllDigits(d) && |d| > 0
    ensures var mag := Integral(d, zeros);
      && 'e' !in mag && 'E' !in mag && ParseSignificand(mag) == Some(g)
      && g.digits == DigitsValue(d) * Pow10(zeros + 1) && g.scale == 1
  {
    assert Pow10(zeros + 1) == 10 * Pow10(zeros);
    MulTen(DigitsValue(d), Pow10(zeros));
    var w := d + Zeros(zeros);
    DigitsValueOfZeros(zeros);
    DigitsValueAppend(d, Zeros(zeros));
    DigitsValueAppend(w, "0");
    SignificandPoint(w, "0");
    DigitsAreDigitPart(w);
    g := Significand(DigitsValue(w + "0"), 1);
  }

  /** A number whose decimal point falls inside its digits, written
      `dd.ddd`. */
  lemma {:induction false} PointRoundTrip(negative: bool, m: nat, e: int)
    requires Canonical(Finite(negative, m, e)) && m != 0 && e < 0
    requires 0 < |NatToString(m)| + e <= 16
    ensures var mag := FormatMagnitude(m, e);
      && |mag| > 0 && IsDigit(mag[0]) && IsDigit(mag[|mag| - 1])
      && ParseUnsigned(negative, mag) == Some(Finite(negative, m, e))
  {
    var d := NatToString(m);
    var mag := PointInside(d, |d| + e);
    assert FormatMagnitude(m, e) == mag;
    NatToStringValue(m);
    var x := PointDigits(d, |d| + e);
    NormalizeCanonical(negative, m, e);
    UnsignedKnown(negative, mag, x, Finite(negative, m, e));
  }

  lemma {:induction false} PointDigits(d: string, point: nat) returns (x: Decimal)
    requires AllDigits(d) && 0 < point < |d|
    ensures var mag := PointInside(d, point);
      && |mag| > 0 && IsDigit(mag[0]) && IsDigit(mag[|mag| - 1])
      && ParseLiteral(mag) == Some(x) && x.digits == DigitsValue(d) && x.exponent == point - |d|
  {
    PointEnds(d, point);
    var g := PointSignificand(d, point);
    x := LiteralOfSignificand(PointInside(d, point), g);
  }

  lemma {:induction false} PointEnds(d: string, point: nat)
    requires AllDigits(d) && 0 < point < |d|
    ensures var mag := PointInside(d, point);
      |mag| > 0 && IsDigit(mag[0]) && IsDigit(mag[|mag| - 1])
  {
    var mag := PointInside(d, point);
    assert mag[0] == d[0] && mag[|mag| - 1] == d[|d| - 1];
  }

  lemma {:induction false} PointSignificand(d: string, point: nat) returns (g: Significand)
    requires AllDigits(d) && 0 < point < |d|
    ensures var mag := PointInside(d, point);
      && 'e' !in mag && 'E' !in mag && ParseSignificand(mag) == Some(g)
      && g.digits == DigitsValue(d) && g.scale == |d| - point
  {
    var w, f := d[..point], d[point..];
    DigitSlices(d, point);
    SignificandPoint(w, f);
    DigitsAreDigitPart(w);
    DigitsAreDigitPart(f);
    g := Significand(DigitsValue(d), |f|);
  }

  /** A number below one whose point falls at most three zeros before its
      digits, written `0.000ddd`. */
  lemma {:induction false} FractionRoundTrip(negative: bool, m: nat, e: int)
    requires Canonical(Finite(negative, m, e)) && m != 0
    requires -3 <= |NatToString(m)| + e <= 0
    ensures var mag := FormatMagnitude(m, e);
      && |mag| > 0 && IsDigit(mag[0]) && IsDigit(mag[|mag| - 1])
      && ParseUnsigned(negative, mag) == Some(Finite(negative, m, e))
  {
    var d := NatToString(m);
    var mag := SmallFraction(d, -(|d| + e));
    assert FormatMagnitude(m, e) == mag;
    NatToStringValue(m);
    var x := FractionDigits(d, -(|d| + e));
    NormalizeCanonical(negative, m, e);
    UnsignedKnown(negative, mag, x, Finite(negative, m, e));
  }

  lemma {:induction false} FractionDigits(d: string, zeros: nat) returns (x: Decimal)
    requires AllDigits(d) && |d| > 0
    ensures var mag := SmallFraction(d, zeros);
      && |mag| > 0 && IsDigit(mag[0]) && IsDigit(mag[|mag| - 1])
      && ParseLiteral(mag) == Some(x) && x.digits == DigitsValue(d) && x.exponent == -(zeros + |d|)
  {
    FractionEnds(d, zeros);
    var g := FractionSignificand(d, zeros);
    x := LiteralOfSignificand(SmallFraction(d, zeros), g);
  }

  lemma {:induction false} FractionEnds(d: string, zeros: nat)
    requires AllDigits(d) && |d| > 0
    ensures var mag := SmallFraction(d, zeros);
      |mag| > 0 && IsDigit(mag[0]) && IsDigit(mag[|mag| - 1])
  {
    var mag := SmallFraction(d, zeros);
    assert mag[0] == '0' && mag[|mag| - 1] == d[|d| - 1];
  }

  lemma {:induction false} FractionSignificand(d: string, zeros: nat) returns (g: Significand)
    requires AllDigits(d) && |d| > 0
    ensures var mag := SmallFraction(d, zeros);
      && 'e' !in mag && 'E' !in mag && ParseSignificand(mag) == Some(g)
      && g.digits == DigitsValue(d) && g.scale == zeros + |d|
  {
    var f := Zeros(zeros) + d;
    LeadingZeros(zeros, d);
    assert Zeros(1) == "0";
    LeadingZeros(1, f);
    SignificandPoint("0", f);
    DigitsAreDigitPart(f);
    g := Significand(DigitsValue(d), |f|);
  }

  /** A number far from one, written `d.ddde+XX` or `de-XX`. */
  lemma {:induction false} ScientificRoundTrip(negative: bool, m: nat, e: int)
    requires Canonical(Finite(negative, m, e)) && m != 0
    requires |NatToString(m)| + e < -3 || 16 < |NatToString(m)| + e
    ensures var mag := FormatMagnitude(m, e);
      && |mag| > 0 && IsDigit(mag[0]) && IsDigit(mag[|mag| - 1])
      && ParseUnsigned(negative, mag) == Some(Finite(negative, m, e))
  {
    var d := NatToString(m);
    var mag := Scientific(d, |d| + e - 1);
    ScientificLayout(m, e);
    NatToStringValue(m);
    var x := ScientificDigits(d, |d| + e - 1);
    NormalizeCanonical(negative, m, e);
    UnsignedKnown(negative, mag, x, Finite(negative, m, e));
  }

  lemma {:induction false} ScientificLayout(m: nat, e: int)
    requires m != 0
    requires |NatToString(m)| + e < -3 || 16 < |NatToString(m)| + e
    ensures FormatMagnitude(m, e) == Scientific(NatToString(m), |NatToString(m)| + e - 1)
  {
  }

  lemma {:induction false} ScientificDigits(d: string, x: int) returns (v: Decimal)
    requires AllDigits(d) && |d| > 0
    ensures var mag := Scientific(d, x);
      && |mag| > 0 && IsDigit(mag[0]) && IsDigit(mag[|mag| - 1])
      && ParseLiteral(mag) == Some(v) && v.digits == DigitsValue(d) && v.exponent == x - (|d| - 1)
  {
    var mant := ScientificSignificand(d);
    var tail := ScientificExponent(x);
    var g := SignificandOfScientific(d);
    ExponentOfScientific(x);
    LiteralSplit(mant, tail);
    DecimalKnown(ParseLiteral(mant + "e" + tail), ParseSignificand(mant), ParseExponent(tail), g, x);
    v := Decimal(g.digits, x - g.scale);
    var mag := Scientific(d, x);
    assert mag == mant + "e" + tail;
    assert mag[0] == d[0] && mag[|mag| - 1] == tail[|tail| - 1];
  }

  lemma {:induction false} SignificandOfScientific(d: string) returns (g: Significand)
    requires AllDigits(d) && |d| > 0
    ensures var mant := ScientificSignificand(d);
      && 'e' !in mant && 'E' !in mant && ParseSignificand(mant) == Some(g)
      && g.digits == DigitsValue(d) && g.scale == |d| - 1
  {
    DigitSlices(d, 1);
    DigitsAreDigitPart(d[..1]);
    if |d| > 1 {
      DigitsAreDigitPart(d[1..]);
      SignificandPoint(d[..1], d[1..]);
    } else {
      assert d[..1] == d;
      var g1 := SignificandInteger(d);
    }
    g := Significand(DigitsValue(d), |d| - 1);
  }

  lemma {:induction false} ExponentOfScientific(x: int)
    ensures var tail := ScientificExponent(x);
      && IsDigit(tail[|tail| - 1]) && ParseExponent(tail) == Some(x)
  {
    var xs := Pad2(NatToString(Abs(x)));
    ExponentDigits(Abs(x));
    ExponentOf(x < 0, xs);
  }


  lemma {:induction false} ExponentDigits(n: nat)
    ensures var xs := Pad2(NatToString(n));
      |xs| > 0 && AllDigits(xs) && DigitsValue(xs) == n
  {
    NatToStringValue(n);
    assert Zeros(1) == "0";
    LeadingZeros(1, NatToString(n));
  }

  /** A literal that starts and ends with a digit, after an optional minus
      sign, is read by the decimal-literal branch of `float()`. */
  lemma {:induction false} SignedLiteral(negative: bool, mag: string)
    requires |mag| > 0 && IsDigit(mag[0]) && IsDigit(mag[|mag| - 1])
    ensures ParseNumber(Sign(negative) + mag) == ParseUnsigned(negative, mag)
  {
    DigitIsNotSpace(mag[0]);
    DigitIsNotSpace(mag[|mag| - 1]);
    LiteralUnstripped(negative, mag);
    StrippedParse(Sign(negative) + mag);
    SignRead(negative, mag);
    DigitLiteralIsNotAWord(negative, mag);
  }

  lemma {:induction false} DigitIsNotSpace(c: char)
    requires IsDigit(c)
    ensures !IsSpace(c) && c != '-' && c != '+'
  {
  }

  lemma {:induction false} LiteralUnstripped(negative: bool, mag: string)
    requires |mag| > 0 && !IsSpace(mag[0]) && !IsSpace(mag[|mag| - 1])
    ensures StripBy(Sign(negative) + mag, IsFloatSpace) == Sign(negative) + mag
  {
    var t := Sign(negative) + mag;
    assert t[|t| - 1] == mag[|mag| - 1];
    StripUnchanged(t, IsFloatSpace);
  }

  lemma {:induction false} StrippedParse(t: string)
    requires StripBy(t, IsFloatSpace) == t
    ensures ParseNumber(t) == ParseSigned(t)
  {
  }

  lemma {:induction false} SignRead(negative: bool, mag: string)
    requires |mag| > 0 && mag[0] != '-' && mag[0] != '+'
    ensures ParseSigned(Sign(negative) + mag) == ParseBody(negative, mag)
  {
    var t := Sign(negative) + mag;
    if negative {
      assert t[1..] == mag;
    } else {
      assert t == mag;
    }
  }

  lemma {:induction false} DigitLiteralIsNotAWord(negative: bool, mag: string)
    requires |mag| > 0 && IsDigit(mag[0])
    ensures ParseBody(negative, mag) == ParseUnsigned(negative, mag)
  {
    assert ToLowerAscii(mag[0]) == mag[0];
    assert "inf"[0] == 'i' && "infinity"[0] == 'i' && "nan"[0] == 'n';
  }

  /** `float(str(x)) == x` for every float `x`. */
  lemma {:induction false} FormatThenParse(n: Number)
    requires Canonical(n)
    ensures ParseNumber(FormatNumber(n)) == Some(n)
  {
    match n
    case NaN =>
      NanRoundTrip();
    case Infinity(negative) =>
      InfinityRoundTrip(negative);
    case Finite(negative, m, e) =>
      MagnitudeRoundTrip(negative, m, e);
      SignedLiteral(negative, FormatMagnitude(m, e));
  }

  lemma {:induction false} NanRoundTrip()
    ensures ParseNumber(FormatNumber(NaN)) == Some(NaN)
  {
    WordRoundTrip(false, "nan");
    assert Sign(false) + "nan" == "nan";
    NanSpelling();
    ReadsNan(false, "nan");
  }

  lemma {:induction false} InfinityRoundTrip(negative: bool)
    ensures ParseNumber(FormatNumber(Infinity(negative))) == Some(Infinity(negative))
  {
    WordRoundTrip(negative, "inf");
    InfSpelling();
    ReadsInfinity(negative, "inf");
  }

  lemma {:induction false} InfSpelling()
    ensures SpellsIgnoringCase("inf", "inf")
  {
    assert ToLowerAscii('i') == 'i' && ToLowerAscii('n') == 'n' && ToLowerAscii('f') == 'f';
  }

  lemma {:induction false} NanSpelling()
    ensures SpellsIgnoringCase("nan", "nan")
    ensures !SpellsIgnoringCase("nan", "inf") && !SpellsIgnoringCase("nan", "infinity")
  {
    assert ToLowerAscii('n') == 'n' && ToLowerAscii('a') == 'a';
    assert "nan"[0] == 'n' && "inf"[0] == 'i';
  }

  lemma {:induction false} ReadsInfinity(negative: bool, w: string)
    requires SpellsIgnoringCase(w, "inf")
    ensures ParseBody(negative, w) == Some(Infinity(negative))
  {
  }

  lemma {:induction false} ReadsNan(negative: bool, w: string)
    requires SpellsIgnoringCase(w, "nan")
    requires !SpellsIgnoringCase(w, "inf") && !SpellsIgnoringCase(w, "infinity")
    ensures ParseBody(negative, w) == Some(NaN)
  {
  }

  lemma {:induction false} LetterIsNotSpace(word: string)
    requires word == "inf" || word == "nan"
    ensures !IsSpace(word[0]) && !IsSpace(word[|word| - 1]) && word[0] != '-' && word[0] != '+'
  {
  }

  lemma {:induction false} WordRoundTrip(negative: bool, word: string)
    requires word == "inf" || word == "nan"
    ensures ParseNumber(Sign(negative) + word) == ParseBody(negative, word)
  {
    LetterIsNotSpace(word);
    LiteralUnstripped(negative, word);
    StrippedParse(Sign(negative) + word);
    SignRead(negative, word);
  }

  /** The price text an extraction line carries parses back, under
      `float()`, to the float the price stands for. */
  lemma {:induction false} PriceRoundTrip(p: Price)
    ensures ParseNumber(FormatPrice(p)) == Some(PriceNumber(p))
  {
    match p
    case Whole(i) =>
      var d := NatToString(Abs(i));
      assert IntToString(i) == Sign(i < 0) + d;
      SignedLiteral(i < 0, d);
      WholeRoundTrip(i < 0, Abs(i));
    case _ =>
      FormatThenParse(PriceNumber(p));
  }

  /** `str` of a whole number reads back as that number. */
  lemma {:induction false} WholeRoundTrip(negative: bool, n: nat)
    ensures var d := NatToString(n);
      && |d| > 0 && IsDigit(d[0]) && IsDigit(d[|d| - 1])
      && ParseUnsigned(negative, d) == Some(Normalize(negative, n, 0))
  {
    var d := NatToString(n);
    NatToStringValue(n);
    var g := SignificandInteger(d);
    DigitsAreDigitPart(d);
    var x := LiteralOfSignificand(d, g);
    assert x == Decimal(n, 0);
    UnsignedKnown(negative, d, x, Normalize(negative, n, 0));
  }
  // ---------------------------------------------------------------------
  // The characters of str(x)

  /** A character `str` writes for a finite float. */
  predicate IsNumeralChar(c: char) {
    IsDigit(c) || c == '.' || c == '-' || c == '+' || c == 'e'
  }

  predicate NumeralText(s: string) {
    forall i :: 0 <= i < |s| ==> IsNumeralChar(s[i])
  }

  lemma {:induction false} NumeralJoin(a: string, b: string)
    requires NumeralText(a) && NumeralText(b)
    ensures NumeralText(a + b)
  {
  }

  lemma {:induction false} DigitsAreNumeral(s: string)
    requires AllDigits(s)
    ensures NumeralText(s)
  {
  }

  /** A finite price is written with digits, a sign, a point and an
      exponent mark only, and ends with a digit; an infinite one is
      written `inf` or `-inf`, and NaN `nan`. */
  lemma {:induction false} PriceText(p: Price)
    ensures var t := FormatPrice(p);
      (p.Whole? || p.Hundredths?) ==> |t| > 0 && IsDigit(t[|t| - 1]) && NumeralText(t)
    ensures p.InfinityPrice? ==> FormatPrice(p) == Sign(p.negative) + "inf"
    ensures p.NaNPrice? ==> FormatPrice(p) == "nan"
  {
    match p
    case Whole(i) =>
      var d := NatToString(Abs(i));
      DigitsAreNumeral(d);
      NumeralJoin(Sign(i < 0), d);
      assert FormatPrice(p) == Sign(i < 0) + d;
    case Hundredths(_, _) =>
      var n := PriceNumber(p);
      FiniteText(n.negative, n.mantissa, n.exponent);
    case InfinityPrice(_) =>
    case NaNPrice =>
  }

  lemma {:induction false} FiniteText(negative: bool, m: nat, e: int)
    requires Canonical(Finite(negative, m, e))
    ensures var t := FormatNumber(Finite(negative, m, e));
      |t| > 0 && IsDigit(t[|t| - 1]) && NumeralText(t)
  {
    var mag := FormatMagnitude(m, e);
    MagnitudeEnds(negative, m, e);
    MagnitudeNumeral(m, e);
    NumeralJoin(Sign(negative), mag);
  }

  /** `str` of a finite float begins and ends with a digit. */
  lemma {:induction false} MagnitudeEnds(negative: bool, m: nat, e: int)
    requires Canonical(Finite(negative, m, e))
    ensures var mag := FormatMagnitude(m, e);
      |mag| > 0 && IsDigit(mag[0]) && IsDigit(mag[|mag| - 1])
  {
    MagnitudeRoundTrip(negative, m, e);
  }

  lemma {:induction false} MagnitudeNumeral(m: nat, e: int)
    ensures NumeralText(FormatMagnitude(m, e))
  {
    if m == 0 {
      assert FormatMagnitude(m, e) == "0.0";
    } else {
      var d := NatToString(m);
      var point := |d| + e;
      if point < -3 || 16 < point {
        ScientificNumeral(d, |d| + e - 1);
      } else if e >= 0 {
        IntegralNumeral(d, e);
      } else if point > 0 {
        PointNumeral(d, point);
      } else {
        FractionNumeral(d, -point);
      }
    }
  }

  lemma {:induction false} IntegralNumeral(d: string, zeros: nat)
    requires AllDigits(d)
    ensures NumeralText(Integral(d, zeros))
  {
    DigitsValueOfZeros(zeros);
    DigitsAreNumeral(d);
    DigitsAreNumeral(Zeros(zeros));
    NumeralJoin(d, Zeros(zeros));
    NumeralJoin(d + Zeros(zeros), ".");
    NumeralJoin(d + Zeros(zeros) + ".", "0");
  }

  lemma {:induction false} PointNumeral(d: string, point: nat)
    requires AllDigits(d) && point <= |d|
    ensures NumeralText(PointInside(d, point))
  {
    DigitSlices(d, point);
    DigitsAreNumeral(d[..point]);
    DigitsAreNumeral(d[point..]);
    NumeralJoin(d[..point], ".");
    NumeralJoin(d[..point] + ".", d[point..]);
  }

  lemma {:induction false} FractionNumeral(d: string, zeros: nat)
    requires AllDigits(d)
    ensures NumeralText(SmallFraction(d, zeros))
  {
    LeadingZeros(zeros, d);
    DigitsAreNumeral(Zeros(zeros) + d);
    NumeralJoin("0.", Zeros(zeros) + d);
    assert "0" + "." == "0.";
  }

  lemma {:induction false} ScientificNumeral(d: string, x: int)
    requires AllDigits(d) && |d| > 0
    ensures NumeralText(Scientific(d, x))
  {
    DigitSlices(d, 1);
    DigitsAreNumeral(d);
    DigitsAreNumeral(d[..1]);
    DigitsAreNumeral(d[1..]);
    var mant := ScientificSignificand(d);
    if |d| > 1 {
      NumeralJoin(d[..1], ".");
      NumeralJoin(d[..1] + ".", d[1..]);
    }
    var xs := Pad2(NatToString(Abs(x)));
    ExponentDigits(Abs(x));
    DigitsAreNumeral(xs);
    var sign := if x < 0 then "-" else "+";
    NumeralJoin(sign, xs);
    NumeralJoin(mant, "e");
    NumeralJoin(mant + "e", sign + xs);
  }
}
