/**
 * Python's `float()` parser, the text `repr` gives a float, and `round(x, 1)`,
 * on exact decimal numbers instead of binary doubles.
 */
module PyFloat {
  import opened Wrappers
  import opened PyStr

  /** The exact number mantissa / 10^scale. */
  datatype Decimal = Decimal(mantissa: int, scale: nat)

  function Pow10(k: nat): (p: nat)
    ensures p >= 1
  {
    if k == 0 then 1 else 10 * Pow10(k - 1)
  }

  function Abs(x: int): nat {
    if x < 0 then -x else x
  }

  /** The magnitude of a decimal, as it looks once its sign is dropped. */
  function Magnitude(d: Decimal): Decimal {
    Decimal(Abs(d.mantissa), d.scale)
  }

  /** No trailing zero after the point, so that each number has one normal form. */
  predicate Normal(d: Decimal) {
    d.scale == 0 || d.mantissa % 10 != 0
  }

  /** Removes trailing zeros after the point without changing the number. */
  function Normalize(m: int, k: nat): (d: Decimal)
    decreases k
    ensures Normal(d) && d.scale <= k
    ensures m == d.mantissa * Pow10(k - d.scale)
    ensures (m >= 0) == (d.mantissa >= 0)
  {
    if k > 0 && m % 10 == 0 then
      var d := Normalize(m / 10, k - 1);
      assert Pow10(k - d.scale) == 10 * Pow10(k - 1 - d.scale);
      assert m == 10 * (m / 10);
      d
    else Decimal(m, k)
  }

  function DigitChar(n: nat): (c: char)
    requires n < 10
    ensures IsDigit(c)
  {
    ('0' as int + n) as char
  }

  function DigitValue(c: char): nat
    requires IsDigit(c)
  {
    c as int - '0' as int
  }

  /** The number a string of decimal digits denotes. */
  function DigitsValue(s: string): nat
    requires AllDigits(s)
  {
    if s == [] then 0 else 10 * DigitsValue(s[..|s| - 1]) + DigitValue(s[|s| - 1])
  }

  /** The shortest decimal digit string of n. */
  function Digits(n: nat): (s: string)
    ensures s != [] && AllDigits(s)
    ensures DigitsValue(s) == n
  {
    if n < 10 then [DigitChar(n)]
    else
      var s := Digits(n / 10) + [DigitChar(n % 10)];
      assert s[..|s| - 1] == Digits(n / 10);
      s
  }

  lemma {:induction false} DigitsValueAppend(a: string, b: string)
    requires AllDigits(a) && AllDigits(b)
    ensures DigitsValue(a + b) == DigitsValue(a) * Pow10(|b|) + DigitsValue(b)
  {
    if b == [] {
      assert a + b == a;
    } else {
      var b' := b[..|b| - 1];
      assert (a + b)[..|a + b| - 1] == a + b';
      DigitsValueAppend(a, b');
      var x, y, z := DigitsValue(a), DigitsValue(b'), DigitValue(b[|b| - 1]);
      assert DigitsValue(a + b) == 10 * (x * Pow10(|b'|) + y) + z;
      ShiftDigit(x, Pow10(|b'|), y, z);
    }
  }

  lemma ShiftDigit(x: int, p: int, y: int, z: int)
    ensures 10 * (x * p + y) + z == x * (10 * p) + (10 * y + z)
  {
  }

  function Zeros(k: nat): (s: string)
    ensures |s| == k && AllDigits(s) && DigitsValue(s) == 0
  {
    if k == 0 then [] else
      var s := Zeros(k - 1) + ['0'];
      assert s[..k - 1] == Zeros(k - 1);
      s
  }

  /** Left-pads a digit string with zeros to at least k digits. */
  function PadLeft(s: string, k: nat): (r: string)
    requires AllDigits(s)
    ensures AllDigits(r) && DigitsValue(r) == DigitsValue(s)
    ensures |r| == if |s| < k then k else |s|
  {
    if |s| < k then
      DigitsValueAppend(Zeros(k - |s|), s);
      Zeros(k - |s|) + s
    else s
  }

  /** The longest prefix of ASCII digits. */
  function LeadingDigits(s: string): (ds: string)
    ensures ds <= s && AllDigits(ds)
    ensures |ds| < |s| ==> !IsDigit(s[|ds|])
  {
    if s != [] && IsDigit(s[0]) then [s[0]] + LeadingDigits(s[1..]) else []
  }

  lemma {:induction false} LeadingDigitsOf(ds: string, rest: string)
    requires AllDigits(ds)
    requires rest == [] || !IsDigit(rest[0])
    ensures LeadingDigits(ds + rest) == ds
  {
    if ds == [] {
      assert ds + rest == rest;
    } else {
      assert (ds + rest)[1..] == ds[1..] + rest;
      LeadingDigitsOf(ds[1..], rest);
    }
  }

  /** The exponent suffix `float()` accepts: nothing, or e/E, an optional sign, digits. */
  function ParseExponent(s: string): Option<int> {
    if s == [] then Some(0)
    else if s[0] != 'e' && s[0] != 'E' then None
    else
      var t := s[1..];
      var ds := if t != [] && (t[0] == '-' || t[0] == '+') then t[1..] else t;
      if ds != [] && AllDigits(ds) then
        var v: int := DigitsValue(ds);
        Some(if t[0] == '-' then -v else v)
      else None
  }

  /** m * 10^(e - fracLen), normalised. */
  function Scaled(m: int, fracLen: nat, e: int): (d: Decimal)
    ensures Normal(d)
    ensures m >= 0 ==> d.mantissa >= 0
  {
    if e >= fracLen then Normalize(m * Pow10(e - fracLen), 0) else Normalize(m, fracLen - e)
  }

  /** The number made of the digits before and after the point and an exponent suffix. */
  function ParseTail(whole: string, frac: string, rest: string): (r: Option<Decimal>)
    requires AllDigits(whole) && AllDigits(frac)
    ensures r.Some? ==> Normal(r.value) && r.value.mantissa >= 0
  {
    if whole == [] && frac == [] then None
    else
      match ParseExponent(rest)
      case None => None
      case Some(e) => Some(Scaled(DigitsValue(whole + frac), |frac|, e))
  }

  /** An unsigned literal: digits, an optional point and digits, an optional exponent. */
  function ParseUnsigned(body: string): (r: Option<Decimal>)
    ensures r.Some? ==> Normal(r.value) && r.value.mantissa >= 0
  {
    var whole := LeadingDigits(body);
    var afterWhole := body[|whole|..];
    if afterWhole != [] && afterWhole[0] == '.' then
      var frac := LeadingDigits(afterWhole[1..]);
      ParseTail(whole, frac, afterWhole[1..][|frac|..])
    else ParseTail(whole, [], afterWhole)
  }

  function Negate(d: Decimal): (r: Decimal)
    requires Normal(d)
    ensures Normal(r)
  {
    assert (-d.mantissa) % 10 == 0 ==> d.mantissa % 10 == 0 by {
      assert d.mantissa == -(-d.mantissa);
    }
    Decimal(-d.mantissa, d.scale)
  }

  /**
   * `float(s)` on a decimal literal: surrounding whitespace, an optional sign, digits
   * with at most one point and at least one digit, and an optional exponent.
   * None stands for the ValueError Python raises.
   */
  function ParseFloat(s: string): (r: Option<Decimal>)
    ensures r.Some? ==> Normal(r.value)
    ensures r.Some? && '-' !in s ==> r.value.mantissa >= 0
  {
    var t := Trim(s);
    if t != [] && t[0] == '-' then
      match ParseUnsigned(t[1..])
      case None => None
      case Some(d) => Some(Negate(d))
    else if t != [] && t[0] == '+' then ParseUnsigned(t[1..])
    else ParseUnsigned(t)
  }

  /** A string holding no digit and no point is not a number. */
  lemma NotANumber(s: string)
    requires forall c :: c in s ==> !IsDigit(c) && c != '.'
    ensures ParseFloat(s) == None
  {
    var t := Trim(s);
    var i :| StrippedAt(s, i, t);
    var body := if t != [] && (t[0] == '-' || t[0] == '+') then t[1..] else t;
    if body != [] {
      var j := if body == t then 0 else 1;
      assert body[0] == t[j] == s[i + j];
    }
    assert LeadingDigits(body) == [];
    assert ParseUnsigned(body) == None;
  }

  /** Digits and points only. */
  predicate DecimalChars(s: string) {
    forall i :: 0 <= i < |s| ==> IsDigit(s[i]) || s[i] == '.'
  }

  /** The digits of a magnitude `a`, left-padded so at least one precedes the point. */
  function Padded(a: nat, scale: nat): (ds: string)
    ensures AllDigits(ds) && |ds| > scale && DigitsValue(ds) == a
  {
    PadLeft(Digits(a), scale + 1)
  }

  /** The digits before the point: all but the last `scale` padded digits. */
  function WholeDigits(a: nat, scale: nat): (w: string)
    ensures w != [] && AllDigits(w)
  {
    var ds := Padded(a, scale);
    ds[..|ds| - scale]
  }

  /** The digits after the point: the last `scale` padded digits, or "0" for a whole number. */
  function FracDigits(a: nat, scale: nat): (f: string)
    ensures f != [] && AllDigits(f)
  {
    var ds := Padded(a, scale);
    if scale == 0 then "0" else ds[|ds| - scale..]
  }

  /** |d| written out: the integer digits, a point and the fraction (at least one digit). */
  function Unsigned(d: Decimal): (s: string)
    ensures s != [] && IsDigit(s[0]) && IsDigit(s[|s| - 1])
  {
    var whole, frac := WholeDigits(Abs(d.mantissa), d.scale), FracDigits(Abs(d.mantissa), d.scale);
    var s := whole + ("." + frac);
    assert s[0] == whole[0] && s[|s| - 1] == frac[|frac| - 1];
    s
  }

  /** Two digit runs around a point hold only digits and the point. */
  lemma PointedDigits(whole: string, frac: string)
    requires AllDigits(whole) && AllDigits(frac)
    ensures DecimalChars(whole + ("." + frac))
  {
    var s := whole + ("." + frac);
    forall i | 0 <= i < |s|
      ensures IsDigit(s[i]) || s[i] == '.'
    {
      if i < |whole| {
        assert s[i] == whole[i];
      } else if i > |whole| {
        assert s[i] == frac[i - |whole| - 1];
      }
    }
  }

  lemma UnsignedChars(d: Decimal)
    ensures DecimalChars(Unsigned(d))
  {
    PointedDigits(WholeDigits(Abs(d.mantissa), d.scale), FracDigits(Abs(d.mantissa), d.scale));
  }

  /**
   * The text `repr` gives a float, on exact decimals: a minus sign for a negative
   * number, then the integer digits, a point and the fraction digits.
   */
  function Render(d: Decimal): (s: string)
    ensures s != [] && !IsSpace(s[0]) && IsDigit(s[|s| - 1])
    ensures s[0] == '-' <==> d.mantissa < 0
  {
    var u := Unsigned(d);
    if d.mantissa < 0 then
      MinusText(u);
      "-" + u
    else u
  }

  /** A minus sign in front of a digit string. */
  lemma MinusText(u: string)
    requires u != [] && IsDigit(u[|u| - 1])
    ensures ("-" + u)[0] == '-' && !IsSpace('-') && IsDigit(("-" + u)[|"-" + u| - 1])
  {
    assert ("-" + u)[|"-" + u| - 1] == u[|u| - 1];
  }

  /** A rendered number holds digits, the point and perhaps a leading minus sign. */
  lemma RenderChars(d: Decimal)
    ensures forall i :: 0 <= i < |Render(d)| ==> IsDigit(Render(d)[i]) || Render(d)[i] == '.' || Render(d)[i] == '-'
  {
    var u := Unsigned(d);
    UnsignedChars(d);
    if d.mantissa < 0 {
      var s := "-" + u;
      assert forall i :: 1 <= i < |s| ==> s[i] == u[i - 1];
    }
  }

  lemma UnsignedMagnitude(d: Decimal)
    ensures Unsigned(Magnitude(d)) == Unsigned(d)
  {
    assert Abs(Magnitude(d).mantissa) == Abs(d.mantissa);
  }

  /** A rendered number is its sign followed by the rendering of its magnitude. */
  lemma RenderMagnitude(d: Decimal)
    ensures Render(d) == (if d.mantissa < 0 then "-" else "") + Render(Magnitude(d))
    ensures DecimalChars(Render(Magnitude(d)))
    ensures exists whole, frac ::
      (whole != [] && frac != [] && AllDigits(whole) && AllDigits(frac) &&
       Render(Magnitude(d)) == whole + ("." + frac))
  {
    UnsignedMagnitude(d);
    assert Render(Magnitude(d)) == Unsigned(d);
    UnsignedChars(d);
    var whole, frac := WholeDigits(Abs(d.mantissa), d.scale), FracDigits(Abs(d.mantissa), d.scale);
    assert Render(Magnitude(d)) == whole + ("." + frac);
    if d.mantissa >= 0 {
      assert "" + Unsigned(d) == Unsigned(d);
    }
  }

  lemma TrimUnchanged(s: string)
    requires s != [] && !IsSpace(s[0]) && !IsSpace(s[|s| - 1])
    ensures Trim(s) == s
  {
  }

  /**
   * `float("1\x1c")` raises: the ASCII separators U+001C to U+001F count as
   * whitespace for `str.split()` but are not stripped by `float()`.
   */
  lemma SeparatorNotStripped()
    ensures IsSpace('\U{1C}')
    ensures ParseFloat("1\U{1C}") == None
  {
    var s := "1\U{1C}";
    assert !IsStripSpace(s[0]) && !IsStripSpace(s[1]);
    assert TrimStart(s) == s;
    assert Trim(s) == s;
    LeadingDigitsOf("1", "\U{1C}");
    assert s == "1" + "\U{1C}";
    assert ParseExponent("\U{1C}") == None;
  }

  /** `float()` reads a literal with digits on both sides of the point. */
  lemma ParsePointLiteral(whole: string, frac: string)
    requires whole != [] && frac != [] && AllDigits(whole) && AllDigits(frac)
    ensures ParseUnsigned(whole + ("." + frac)) == Some(Scaled(DigitsValue(whole + frac), |frac|, 0))
  {
    var body := whole + ("." + frac);
    LeadingDigitsOf(whole, "." + frac);
    assert body[|whole|..] == "." + frac;
    assert ("." + frac)[1..] == frac + [];
    LeadingDigitsOf(frac, []);
    assert frac[|frac|..] == [];
  }

  /** `float()` reads an unsigned literal that has no surrounding whitespace. */
  lemma ParseUnsignedText(u: string)
    requires u != [] && IsDigit(u[0]) && IsDigit(u[|u| - 1])
    ensures ParseFloat(u) == ParseUnsigned(u)
  {
    TrimUnchanged(u);
    assert Trim(u) == u && u[0] != '-' && u[0] != '+';
  }

  /** `float()` of "digits.digits" with nothing around it. */
  lemma ParseFloatPointLiteral(whole: string, frac: string)
    requires whole != [] && frac != [] && AllDigits(whole) && AllDigits(frac)
    ensures ParseFloat(whole + ("." + frac)) == Some(Scaled(DigitsValue(whole + frac), |frac|, 0))
  {
    var body := whole + ("." + frac);
    assert body[0] == whole[0] && body[|body| - 1] == frac[|frac| - 1];
    ParseUnsignedText(body);
    ParsePointLiteral(whole, frac);
  }

  /** `float()` reads a minus sign followed by an unsigned literal. */
  lemma ParseNegativeText(u: string)
    requires u != [] && IsDigit(u[0]) && IsDigit(u[|u| - 1])
    ensures ParseFloat("-" + u) == if ParseUnsigned(u).Some? then Some(Negate(ParseUnsigned(u).value)) else None
  {
    var s := "-" + u;
    assert s[|s| - 1] == u[|u| - 1];
    TrimUnchanged(s);
    assert s[1..] == u;
  }

  lemma TenthsOfWhole(a: nat)
    ensures Scaled(10 * a, 1, 0) == Decimal(a, 0)
  {
    assert (10 * a) % 10 == 0 && (10 * a) / 10 == a;
  }

  /** Dropping the sign keeps a decimal normal. */
  lemma NormalMagnitude(d: Decimal)
    requires Normal(d)
    ensures Normal(Magnitude(d))
  {
    var a: int := Abs(d.mantissa);
    assert d.mantissa < 0 ==> d.mantissa == -a;
  }

  lemma MagnitudeNormal(d: Decimal)
    requires Normal(d) && d.scale > 0
    ensures Scaled(Abs(d.mantissa), d.scale, 0) == Magnitude(d)
  {
    var a: int := Abs(d.mantissa);
    assert d.mantissa < 0 ==> d.mantissa == -a;
  }

  lemma ParseUnsignedWhole(d: Decimal)
    requires d.scale == 0
    ensures ParseUnsigned(Unsigned(d)) == Some(Magnitude(d))
  {
    var ds := Padded(Abs(d.mantissa), 0);
    assert WholeDigits(Abs(d.mantissa), 0) == ds;
    ParsePointLiteral(ds, "0");
    assert DigitsValue(ds + "0") == 10 * Abs(d.mantissa) by {
      assert (ds + "0")[..|ds + "0"| - 1] == ds;
    }
    TenthsOfWhole(Abs(d.mantissa));
  }

  lemma FractionText(d: Decimal)
    ensures ParseUnsigned(Unsigned(d)) ==
      Some(Scaled(DigitsValue(WholeDigits(Abs(d.mantissa), d.scale) + FracDigits(Abs(d.mantissa), d.scale)),
                  |FracDigits(Abs(d.mantissa), d.scale)|, 0))
  {
    ParsePointLiteral(WholeDigits(Abs(d.mantissa), d.scale), FracDigits(Abs(d.mantissa), d.scale));
  }

  lemma FractionDigits(a: nat, scale: nat)
    requires scale > 0
    ensures DigitsValue(WholeDigits(a, scale) + FracDigits(a, scale)) == a
    ensures |FracDigits(a, scale)| == scale
  {
    assert WholeDigits(a, scale) + FracDigits(a, scale) == Padded(a, scale);
  }

  lemma ParseUnsignedFraction(d: Decimal)
    requires Normal(d) && d.scale > 0
    ensures ParseUnsigned(Unsigned(d)) == Some(Magnitude(d))
  {
    FractionText(d);
    FractionDigits(Abs(d.mantissa), d.scale);
    MagnitudeNormal(d);
  }

  /** The unsigned text of a normal decimal parses back to its magnitude. */
  lemma ParseUnsignedRender(d: Decimal)
    requires Normal(d)
    ensures ParseUnsigned(Unsigned(d)) == Some(Magnitude(d))
  {
    if d.scale == 0 {
      ParseUnsignedWhole(d);
    } else {
      ParseUnsignedFraction(d);
    }
  }

  lemma ParseRenderNegative(d: Decimal)
    requires Normal(d) && d.mantissa < 0
    ensures ParseFloat(Render(d)) == Some(d)
  {
    var u := Unsigned(d);
    ParseUnsignedRender(d);
    ParseNegativeText(u);
    assert Negate(Magnitude(d)) == d;
  }

  /** Parsing what was rendered gives back the same normal decimal. */
  lemma ParseRender(d: Decimal)
    requires Normal(d)
    ensures ParseFloat(Render(d)) == Some(d)
  {
    if d.mantissa < 0 {
      ParseRenderNegative(d);
    } else {
      ParseUnsignedRender(d);
      ParseUnsignedText(Unsigned(d));
    }
  }

  /**
   * `round(x, 1)` on an exact decimal, as a number of tenths: round half to even.
   * The result is a nearest tenth, an even one on a tie.
   */
  function RoundTenths(d: Decimal): (t: int)
    ensures 2 * Abs(d.mantissa * 10 - t * Pow10(d.scale)) <= Pow10(d.scale)
    ensures 2 * Abs(d.mantissa * 10 - t * Pow10(d.scale)) == Pow10(d.scale) ==> t % 2 == 0
    ensures d.mantissa >= 0 ==> t >= 0
  {
    if d.scale == 0 then d.mantissa * 10
    else
      var m := d.mantissa;
      var p := Pow10(d.scale - 1);
      var q := m / p;
      var rem := m % p;
      var t := if 2 * rem > p || (2 * rem == p && q % 2 == 1) then q + 1 else q;
      NearestTenth(m, p, q, rem, t);
      t
  }

  lemma NearestTenth(m: int, p: nat, q: int, rem: int, t: int)
    requires p >= 1 && q == m / p && rem == m % p
    requires t == if 2 * rem > p || (2 * rem == p && q % 2 == 1) then q + 1 else q
    ensures 2 * Abs(m * 10 - t * (10 * p)) <= 10 * p
    ensures 2 * Abs(m * 10 - t * (10 * p)) == 10 * p ==> t % 2 == 0
    ensures m >= 0 ==> t >= 0
  {
    var e := m - t * p;
    RoundedOffset(m, p, q, rem, t);
    TimesTen(m, t, p);
    assert m * 10 - t * (10 * p) == 10 * e;
  }

  /** How far the chosen multiple of `p` is from `m`: the remainder, or the remainder less `p`. */
  lemma RoundedOffset(m: int, p: nat, q: int, rem: int, t: int)
    requires p >= 1 && q == m / p && rem == m % p
    requires t == q || t == q + 1
    ensures t == q ==> m - t * p == rem
    ensures t == q + 1 ==> m - t * p == rem - p
    ensures 0 <= rem < p
    ensures m >= 0 ==> q >= 0
  {
    assert m == q * p + rem;
    assert (q + 1) * p == q * p + p;
  }

  lemma TimesTen(m: int, t: int, p: int)
    ensures m * 10 - t * (10 * p) == 10 * (m - t * p)
  {
  }

  lemma Factor(a: int, b: int, p: int)
    ensures a * p - b * p == (a - b) * p
  {
  }

  /** A nonzero multiple of `p` is at least `p` away from zero. */
  lemma MultipleMagnitude(k: int, p: int)
    requires p >= 1
    ensures k != 0 ==> Abs(k * p) >= p
  {
    if k >= 1 {
      assert k * p >= p;
    } else if k <= -1 {
      assert (-k) * p >= p;
      assert k * p == -((-k) * p);
    }
  }

  /** A decimal that already names a tenth rounds to exactly that tenth. */
  lemma RoundTenthsExact(d: Decimal, tenths: int)
    requires d.mantissa * 10 == tenths * Pow10(d.scale)
    ensures RoundTenths(d) == tenths
  {
    var t := RoundTenths(d);
    var p := Pow10(d.scale);
    Factor(tenths, t, p);
    MultipleMagnitude(tenths - t, p);
  }
}
