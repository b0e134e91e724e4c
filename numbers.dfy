/**
 * The numeric field grammar: Python's `int(s)` and `float(s)` restricted to
 * plain decimal numerals, read as exact integers and reals.
 */
module Numbers {
  import opened Wrappers
  import opened Text

  predicate IsDigit(c: char)
  {
    '0' <= c <= '9'
  }

  predicate AllDigits(s: string)
  {
    forall i :: 0 <= i < |s| ==> IsDigit(s[i])
  }

  /** What an unsigned numeral is made of: digits and the decimal point. */
  predicate IsNumeralChar(c: char)
  {
    IsDigit(c) || c == '.'
  }

  /**
   * The numerals `float()` accepts here, without a sign: digits with at most
   * one '.', and at least one digit somewhere.
   */
  predicate UnsignedNumeral(s: string)
  {
    && (forall i :: 0 <= i < |s| ==> IsNumeralChar(s[i]))
    && Count(s, '.') <= 1
    && (exists i :: 0 <= i < |s| && IsDigit(s[i]))
  }

  predicate IsSign(c: char)
  {
    c == '-' || c == '+'
  }

  /** An optional sign followed by an unsigned numeral. */
  predicate DecimalNumeral(s: string)
  {
    UnsignedNumeral(s) || (s != [] && IsSign(s[0]) && UnsignedNumeral(s[1..]))
  }

  /** An optional sign followed by one or more digits. */
  predicate IntNumeral(s: string)
  {
    (s != [] && AllDigits(s)) || (|s| > 1 && IsSign(s[0]) && AllDigits(s[1..]))
  }

  lemma DigitsHaveNoPoint(t: string)
    requires AllDigits(t)
    ensures '.' !in t
  {
    forall k | 0 <= k < |t|
      ensures t[k] != '.'
    {
      assert IsDigit(t[k]);
    }
  }

  /** Around its first '.', a numeral is two digit strings with at least one digit between them. */
  lemma NumeralWithPoint(s: string)
    requires '.' in s
    ensures var i := IndexOf(s, '.');
      UnsignedNumeral(s) <==> AllDigits(s[..i]) && AllDigits(s[i + 1..]) && |s| > 1
  {
    var i := IndexOf(s, '.');
    CountAfterFirst(s, i);
    if AllDigits(s[..i]) && AllDigits(s[i + 1..]) && |s| > 1 {
      PointAndDigits(s, i);
    }
    if UnsignedNumeral(s) {
      NumeralParts(s, i);
    }
  }

  lemma CountAfterFirst(s: string, i: nat)
    requires i < |s| && s[i] == '.' && '.' !in s[..i]
    ensures Count(s, '.') == 1 + Count(s[i + 1..], '.')
  {
    assert s == s[..i] + "." + s[i + 1..];
    CountConcat(s[..i] + ".", s[i + 1..], '.');
    CountConcat(s[..i], ".", '.');
  }

  lemma PointAndDigits(s: string, i: nat)
    requires i < |s| && s[i] == '.' && |s| > 1
    requires AllDigits(s[..i]) && AllDigits(s[i + 1..])
    requires Count(s, '.') == 1 + Count(s[i + 1..], '.')
    ensures UnsignedNumeral(s)
  {
    DigitsHaveNoPoint(s[i + 1..]);
    forall k | 0 <= k < |s|
      ensures IsNumeralChar(s[k])
    {
      if k < i {
        assert s[k] == s[..i][k];
      } else if k > i {
        assert s[k] == s[i + 1..][k - i - 1];
      }
    }
    var k := if i > 0 then 0 else i + 1;
    assert k < i ==> s[k] == s[..i][k];
    assert k > i ==> s[k] == s[i + 1..][0];
    assert IsDigit(s[k]);
  }

  lemma NumeralParts(s: string, i: nat)
    requires i < |s| && s[i] == '.' && '.' !in s[..i]
    requires Count(s, '.') == 1 + Count(s[i + 1..], '.')
    requires UnsignedNumeral(s)
    ensures AllDigits(s[..i]) && AllDigits(s[i + 1..]) && |s| > 1
  {
    var whole, frac := s[..i], s[i + 1..];
    assert Count(frac, '.') == 0;
    forall k | 0 <= k < |whole|
      ensures IsDigit(whole[k])
    {
      assert whole[k] == s[k] && IsNumeralChar(s[k]);
    }
    forall k | 0 <= k < |frac|
      ensures IsDigit(frac[k])
    {
      assert frac[k] == s[i + 1 + k] && IsNumeralChar(s[i + 1 + k]);
    }
    var k :| 0 <= k < |s| && IsDigit(s[k]);
    assert k != i;
  }

  /** Without a '.', a numeral is a non-empty digit string. */
  lemma NumeralWithoutPoint(s: string)
    requires '.' !in s
    ensures UnsignedNumeral(s) <==> s != [] && AllDigits(s)
  {
    if s != [] && AllDigits(s) {
      assert IsDigit(s[0]);
    }
  }

  function Pow10(k: nat): (p: nat)
    ensures p >= 1
  {
    if k == 0 then 1 else 10 * Pow10(k - 1)
  }

  /** The value of a string of decimal digits, most significant first ("" is 0). */
  function DigitsValue(s: string): (n: nat)
    requires AllDigits(s)
    ensures n < Pow10(|s|)
  {
    if s == [] then 0
    else
      var d := s[|s| - 1] as int - '0' as int;
      var m := DigitsValue(s[..|s| - 1]);
      assert m * 10 + d < 10 * Pow10(|s| - 1) by {
        assert m + 1 <= Pow10(|s| - 1);
        assert (m + 1) * 10 <= 10 * Pow10(|s| - 1);
      }
      m * 10 + d
  }

  /** The value of the digits after a decimal point: "038" is 0.038. */
  function FractionValue(frac: string): (f: real)
    requires AllDigits(frac)
    ensures 0.0 <= f < 1.0
  {
    var d, p := DigitsValue(frac) as real, Pow10(|frac|) as real;
    DivBelowOne(d, p);
    d / p
  }

  lemma DivBelowOne(x: real, y: real)
    requires 0.0 <= x < y
    ensures 0.0 <= x / y < 1.0
  {
  }

  /**
   * An unsigned numeral: digits, optionally a single '.' and more digits, with
   * at least one digit in all ("4.", ".5" and "4807.038" are numerals, "." is not).
   */
  function ParseUnsigned(s: string): (r: Option<real>)
    ensures r.Some? ==> s != [] && r.value >= 0.0
    ensures s != [] && AllDigits(s) ==> r == Some(DigitsValue(s) as real)
  {
    if '.' in s then
      var i := IndexOf(s, '.');
      var whole, frac := s[..i], s[i + 1..];
      if AllDigits(whole) && AllDigits(frac) && |whole| + |frac| > 0
      then Some(DigitsValue(whole) as real + FractionValue(frac))
      else None
    else if s != [] && AllDigits(s) then Some(DigitsValue(s) as real)
    else None
  }

  /** Python's `float(s)` on an optionally signed decimal numeral; `None` where it raises. */
  function ParseDecimal(s: string): (r: Option<real>)
    ensures s == [] ==> r.None?
    ensures s != [] && AllDigits(s) ==> r == Some(DigitsValue(s) as real)
  {
    if |s| > 0 && s[0] == '-' then
      match ParseUnsigned(s[1..])
      case Some(v) => Some(-v)
      case None => None
    else if |s| > 0 && s[0] == '+' then ParseUnsigned(s[1..])
    else ParseUnsigned(s)
  }

  /** Python's `int(s)` on an optionally signed string of digits; `None` where it raises. */
  function ParseInt(s: string): (r: Option<int>)
    ensures s == [] ==> r.None?
    ensures s != [] && AllDigits(s) ==> r == Some(DigitsValue(s))
  {
    if |s| > 0 && (s[0] == '-' || s[0] == '+') then
      var body := s[1..];
      if body != [] && AllDigits(body)
      then Some(if s[0] == '-' then -(DigitsValue(body) as int) else DigitsValue(body))
      else None
    else if s != [] && AllDigits(s) then Some(DigitsValue(s))
    else None
  }

  /** `float()` without a sign accepts exactly the unsigned numerals. */
  lemma UnsignedGrammar(s: string)
    ensures ParseUnsigned(s).Some? <==> UnsignedNumeral(s)
  {
    if '.' in s {
      NumeralWithPoint(s);
    } else {
      NumeralWithoutPoint(s);
    }
  }

  /** `float()` accepts exactly an optional sign followed by an unsigned numeral. */
  lemma DecimalGrammar(s: string)
    ensures ParseDecimal(s).Some? <==> DecimalNumeral(s)
  {
    UnsignedGrammar(s);
    if s != [] {
      UnsignedGrammar(s[1..]);
      if IsSign(s[0]) {
        assert !IsNumeralChar(s[0]);
      }
    }
  }

  /** `int()` accepts exactly an optional sign followed by one or more digits. */
  lemma IntGrammar(s: string)
    ensures ParseInt(s).Some? <==> IntNumeral(s)
  {
    if s != [] && IsSign(s[0]) {
      assert !IsDigit(s[0]);
    }
  }

  lemma PointAt(whole: string, frac: string, s: string)
    requires AllDigits(whole) && s == whole + "." + frac
    ensures '.' in s && IndexOf(s, '.') == |whole|
    ensures s[..|whole|] == whole && s[|whole| + 1..] == frac
  {
    assert '.' !in whole;
    IndexOfAfter(whole, '.', frac);
  }

  lemma UnsignedParts(whole: string, frac: string, s: string)
    requires AllDigits(whole) && AllDigits(frac) && |whole| + |frac| > 0
    requires s == whole + "." + frac
    requires '.' in s && IndexOf(s, '.') == |whole|
    requires s[..|whole|] == whole && s[|whole| + 1..] == frac
    ensures ParseUnsigned(s) == Some(DigitsValue(whole) as real + FractionValue(frac))
  {
  }

  /** A numeral with a point denotes its whole part plus its fraction digits over a power of ten. */
  lemma DecimalParts(whole: string, frac: string)
    requires AllDigits(whole) && AllDigits(frac) && |whole| + |frac| > 0
    ensures ParseDecimal(whole + "." + frac)
      == Some(DigitsValue(whole) as real + FractionValue(frac))
  {
    var s := whole + "." + frac;
    PointAt(whole, frac, s);
    UnsignedParts(whole, frac, s);
    assert s[0] != '-' && s[0] != '+' by {
      if whole != [] { assert s[0] == whole[0]; } else { assert s[0] == '.'; }
    }
  }

  /** Every string `int()` accepts, `float()` accepts too, with the same value. */
  lemma IntIsDecimal(s: string)
    requires ParseInt(s).Some?
    ensures ParseDecimal(s) == Some(ParseInt(s).value as real)
  {
    var body := if s[0] == '-' || s[0] == '+' then s[1..] else s;
    assert body != [] && AllDigits(body);
  }

  /** A minus sign negates what the unsigned numeral denotes. */
  lemma NegatedDecimal(u: string)
    requires u != [] && u[0] != '-' && u[0] != '+'
    ensures ParseDecimal("-" + u).Some? <==> ParseDecimal(u).Some?
    ensures ParseDecimal(u).Some? ==> ParseDecimal("-" + u).value == -ParseDecimal(u).value
  {
    assert ("-" + u)[1..] == u;
  }

  /** A plus sign leaves the numeral's value as it is. */
  lemma PlusDecimal(u: string)
    requires u != [] && !IsSign(u[0])
    ensures ParseDecimal("+" + u) == ParseDecimal(u)
  {
    assert ("+" + u)[1..] == u;
  }

  /** `int()` reads signs the same way: '+' changes nothing, '-' negates. */
  lemma SignedInt(u: string)
    requires u != [] && !IsSign(u[0])
    ensures ParseInt("+" + u) == ParseInt(u)
    ensures ParseInt("-" + u).Some? <==> ParseInt(u).Some?
    ensures ParseInt(u).Some? ==> ParseInt("-" + u).value == -ParseInt(u).value
  {
    assert ("+" + u)[1..] == u && ("-" + u)[1..] == u;
  }

  /** `float()` rejects a letter, a lone point and a lone sign. */
  lemma ExampleRejectedShort()
    ensures ParseDecimal("x").None? && ParseDecimal(".").None? && ParseDecimal("+").None?
  {
    assert !IsDigit('x') && !IsDigit('.');
  }

  /** `float()` rejects two points and two signs. */
  lemma ExampleRejectedLong()
    ensures ParseDecimal("1.2.3").None? && ParseDecimal("--5").None?
  {
    assert Count("1.2.3", '.') == 2;
    assert !IsNumeralChar("--5"[1]);
  }

  /** `int()` rejects a point, a lone sign and a letter. */
  lemma ExampleIntRejected()
    ensures ParseInt("1.0").None? && ParseInt("+").None? && ParseInt("x").None?
  {
    assert !IsDigit("1.0"[1]) && !IsDigit('x');
  }

  /**
   * The decimal spelling of a natural number, Python's `str(n)`; `int()` and
   * `float()` read it back as `n`.
   */
  function NatDigits(n: nat): (s: string)
    ensures s != [] && AllDigits(s)
    ensures DigitsValue(s) == n
    ensures ParseInt(s) == Some(n as int) && ParseDecimal(s) == Some(n as real)
  {
    var last := ['0' + (n % 10) as char];
    if n < 10 then last
    else
      var s := NatDigits(n / 10) + last;
      assert s[..|s| - 1] == NatDigits(n / 10);
      s
  }
}
