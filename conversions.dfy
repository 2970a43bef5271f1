/**
 * The Python built-ins the indexer and the filter engine rely on: the type
 * constructors str(), float() and int() applied to incoming values, the text
 * grammar of int(), float() and fractions.Fraction(), str() of numbers,
 * str.lower(), str.rstrip() and the ordering of strings.
 *
 * Floats are modelled as exact reals; the text grammars are the common
 * subsets listed in README.md.
 */
module Conversions {
  import opened Wrappers

  /** The built-in exceptions that the modelled code raises or catches. */
  datatype Error = ValueError | TypeError | KeyError | ZeroDivisionError | OSError

  /** The three declared field types: str, float and int. */
  datatype PyType = StrType | FloatType | IntType

  /** A value of one of the three field types. */
  datatype Value = Str(s: string) | Float(r: real) | Int(i: int)

  /**
   * A value as it arrives from outside the record: a string, an integer, a
   * float or fraction, or an object of some other class (a date, a list),
   * known only through the text str() gives for it.
   */
  datatype Raw = RawStr(s: string) | RawInt(i: int) | RawFloat(r: real) | RawOther(shown: string)

  predicate HasType(v: Value, ty: PyType)
  {
    match v
    case Str(_) => ty == StrType
    case Float(_) => ty == FloatType
    case Int(_) => ty == IntType
  }

  /** A typed value seen again as an incoming value. */
  function AsRaw(v: Value): Raw
  {
    match v
    case Str(s) => RawStr(s)
    case Float(r) => RawFloat(r)
    case Int(i) => RawInt(i)
  }

  // ---------------------------------------------------------------------
  // Digits and decimal integers
  // ---------------------------------------------------------------------

  predicate IsDigit(c: char) { '0' <= c <= '9' }

  predicate AllDigits(s: string) { forall i :: 0 <= i < |s| ==> IsDigit(s[i]) }

  function DigitChar(d: nat): (c: char)
    requires d < 10
    ensures IsDigit(c)
  {
    ('0' as int + d) as char
  }

  function DigitValue(c: char): (d: nat)
    requires IsDigit(c)
    ensures d < 10
  {
    c as int - '0' as int
  }

  /** str() of a natural number: its decimal digits, most significant first. */
  function NatText(n: nat): (s: string)
    ensures |s| > 0 && AllDigits(s)
    decreases n
  {
    if n < 10 then [DigitChar(n)] else NatText(n / 10) + [DigitChar(n % 10)]
  }

  /** The number a non-empty run of decimal digits denotes. */
  function DigitsValue(s: string): nat
    requires AllDigits(s)
  {
    if s == [] then 0 else DigitsValue(s[..|s| - 1]) * 10 + DigitValue(s[|s| - 1])
  }

  lemma {:induction false} DigitsValueOfNatText(n: nat)
    ensures DigitsValue(NatText(n)) == n
    decreases n
  {
    var s := NatText(n);
    if n >= 10 {
      DigitsValueOfNatText(n / 10);
      assert s[..|s| - 1] == NatText(n / 10);
    }
  }

  /** str() of an integer. */
  function IntText(i: int): string
  {
    if i < 0 then "-" + NatText(-i) else NatText(i)
  }

  /** An optional leading sign split off: (negative?, rest). */
  function SplitSign(s: string): (bool, string)
  {
    if |s| > 0 && s[0] == '-' then (true, s[1..])
    else if |s| > 0 && s[0] == '+' then (false, s[1..])
    else (false, s)
  }

  function Signed(neg: bool, x: int): int { if neg then -x else x }

  function SignedReal(neg: bool, x: real): real { if neg then -x else x }

  /** int(s) for a string s: `[+-]?digits`, or None where int() raises ValueError. */
  function ParseInt(s: string): Option<int>
  {
    var (neg, body) := SplitSign(s);
    if body != [] && AllDigits(body) then Some(Signed(neg, DigitsValue(body))) else None
  }

  /** int() reads back every integer str() writes. */
  lemma IntTextRoundTrip(i: int)
    ensures ParseInt(IntText(i)) == Some(i)
  {
    if i < 0 {
      DigitsValueOfNatText(-i);
      assert SplitSign(IntText(i)) == (true, NatText(-i));
    } else {
      DigitsValueOfNatText(i);
      assert SplitSign(IntText(i)) == (false, NatText(i));
    }
  }

  // ---------------------------------------------------------------------
  // Decimal and rational text
  // ---------------------------------------------------------------------

  function Pow10(n: nat): (p: nat)
    ensures p >= 1
  {
    if n == 0 then 1 else 10 * Pow10(n - 1)
  }

  /** The index of the first occurrence of c in s. */
  function IndexOf(s: string, c: char): (r: Option<nat>)
    ensures r.Some? ==> r.value < |s| && s[r.value] == c && c !in s[..r.value]
    ensures r.None? ==> c !in s
  {
    if s == [] then None
    else if s[0] == c then Some(0)
    else match IndexOf(s[1..], c)
      case None => None
      case Some(k) => assert s[1..][..k] == s[1..k + 1]; Some(k + 1)
  }

  /** The number `whole.frac` denotes. */
  function DecimalValue(whole: string, frac: string): real
    requires AllDigits(whole) && AllDigits(frac)
  {
    DigitsValue(whole) as real + DigitsValue(frac) as real / Pow10(|frac|) as real
  }

  /** The number `num/den` denotes. */
  function RatioValue(num: string, den: string): real
    requires AllDigits(num) && AllDigits(den) && DigitsValue(den) != 0
  {
    DigitsValue(num) as real / DigitsValue(den) as real
  }

  /** float() of unsigned text: `digits(.digits)?`. */
  function ParseUnsignedFloat(body: string): Option<real>
  {
    match IndexOf(body, '.')
    case None =>
      if body != [] && AllDigits(body) then Some(DigitsValue(body) as real) else None
    case Some(k) =>
      var whole, frac := body[..k], body[k + 1..];
      if whole != [] && frac != [] && AllDigits(whole) && AllDigits(frac) then Some(DecimalValue(whole, frac))
      else None
  }

  /** float(s) for a string s: `[+-]?digits(.digits)?`, or None where float() raises ValueError. */
  function ParseFloat(s: string): Option<real>
  {
    var (neg, body) := SplitSign(s);
    match ParseUnsignedFloat(body)
    case None => None
    case Some(x) => Some(SignedReal(neg, x))
  }

  /** fractions.Fraction(s) for a string s: `[+-]?digits(/digits)?`. */
  function ParseFraction(s: string): (r: Result<real, Error>)
    ensures r.Err? ==> r.error == ValueError || r.error == ZeroDivisionError
    ensures r == Err(ZeroDivisionError) ==> '/' in s
    ensures ParseInt(s).Some? ==> r == Ok(ParseInt(s).value as real)
  {
    var (neg, body) := SplitSign(s);
    match IndexOf(body, '/')
    case None =>
      if body != [] && AllDigits(body) then Ok(SignedReal(neg, DigitsValue(body) as real)) else Err(ValueError)
    case Some(k) =>
      var num, den := body[..k], body[k + 1..];
      if num != [] && den != [] && AllDigits(num) && AllDigits(den) then
        if DigitsValue(den) == 0 then Err(ZeroDivisionError)
        else Ok(SignedReal(neg, RatioValue(num, den)))
      else Err(ValueError)
  }

  /** The first n decimal digits of a fraction 0 <= x < 1. */
  function FracDigits(x: real, n: nat): (s: string)
    requires 0.0 <= x < 1.0
    ensures |s| == n && AllDigits(s)
    decreases n
  {
    if n == 0 then []
    else
      var y := x * 10.0;
      var d := y.Floor;
      assert 0 <= d < 10;
      [DigitChar(d)] + FracDigits(y - d as real, n - 1)
  }

  /** Trailing zero digits dropped, keeping at least one digit. */
  function TrimZeros(s: string): (r: string)
    ensures |r| <= |s| && r == s[..|r|]
    ensures |s| > 0 ==> |r| > 0
  {
    if |s| > 1 && s[|s| - 1] == '0' then TrimZeros(s[..|s| - 1]) else s
  }

  /** How many fractional digits str() of a float keeps at most. */
  function FractionWidth(): nat { 12 }

  function FloatTextNonneg(x: real): string
    requires x >= 0.0
  {
    var w := x.Floor;
    NatText(w) + "." + TrimZeros(FracDigits(x - w as real, FractionWidth()))
  }

  /** str() of a float, written as a fixed-point decimal. */
  function FloatText(r: real): string
  {
    if r < 0.0 then "-" + FloatTextNonneg(-r) else FloatTextNonneg(r)
  }

  lemma {:induction false} FracDigitsOfZero(n: nat)
    ensures FracDigits(0.0, n) == seq(n, _ => '0')
  {
    if n > 0 {
      FracDigitsOfZero(n - 1);
      assert (0.0 * 10.0).Floor == 0;
    }
  }

  lemma {:induction false} TrimZerosOfZeros(n: nat)
    requires n > 0
    ensures TrimZeros(seq(n, _ => '0')) == "0"
  {
    if n > 1 {
      assert seq(n, _ => '0')[..n - 1] == seq(n - 1, _ => '0');
      TrimZerosOfZeros(n - 1);
    }
  }

  lemma TrimmedZeroFraction()
    ensures TrimZeros(FracDigits(0.0, FractionWidth())) == "0"
  {
    FracDigitsOfZero(FractionWidth());
    TrimZerosOfZeros(FractionWidth());
  }

  lemma FloatTextNonnegOfNat(m: nat)
    ensures FloatTextNonneg(m as real) == NatText(m) + ".0"
  {
    var x := m as real;
    assert x.Floor == m;
    assert x - m as real == 0.0;
    TrimmedZeroFraction();
  }

  lemma FloatTextNegative(n: int, m: nat)
    requires n + m == 0 && m > 0
    ensures FloatText(n as real) == "-" + FloatTextNonneg(m as real)
  {
    var r, x := n as real, m as real;
    assert -r == x;
    FloatTextNonnegArgument(-r, x);
  }

  lemma FloatTextNonnegArgument(x: real, y: real)
    requires x == y && x >= 0.0
    ensures FloatTextNonneg(x) == FloatTextNonneg(y)
  {
  }

  /** Integral floats are written with a single ".0" fraction, as Python does. */
  lemma FloatTextOfIntegral(n: int)
    ensures FloatText(n as real) == IntText(n) + ".0"
  {
    if n < 0 {
      var m: nat := -n;
      FloatTextNegative(n, m);
      FloatTextNonnegOfNat(m);
    } else {
      FloatTextNonnegOfNat(n);
    }
  }

  lemma {:induction false} IndexOfAfterDigits(d: string, rest: string, c: char)
    requires AllDigits(d) && !IsDigit(c) && rest != [] && rest[0] == c
    ensures IndexOf(d + rest, c) == Some(|d|)
  {
    if d != [] {
      assert (d + rest)[1..] == d[1..] + rest;
      IndexOfAfterDigits(d[1..], rest, c);
    }
  }

  /** A sign followed by text starting with a digit splits into the sign and that text. */
  lemma SplitSignBeforeDigit(neg: bool, body: string)
    requires body != [] && IsDigit(body[0])
    ensures SplitSign((if neg then "-" else "") + body) == (neg, body)
  {
    var s := (if neg then "-" else "") + body;
    if neg {
      assert s[1..] == body;
    } else {
      assert s == body;
    }
  }

  lemma UnsignedDecimal(whole: string, frac: string)
    requires whole != [] && AllDigits(whole) && frac != [] && AllDigits(frac)
    ensures ParseUnsignedFloat(whole + "." + frac) == Some(DecimalValue(whole, frac))
  {
    var body := whole + "." + frac;
    assert body == whole + ("." + frac);
    IndexOfAfterDigits(whole, "." + frac, '.');
    assert body[..|whole|] == whole;
    assert body[|whole| + 1..] == frac;
  }

  /** float() reads `whole.frac` as the decimal number it spells. */
  lemma ParseFloatOfDecimal(neg: bool, whole: string, frac: string)
    requires whole != [] && AllDigits(whole) && frac != [] && AllDigits(frac)
    ensures ParseFloat((if neg then "-" else "") + whole + "." + frac)
         == Some(SignedReal(neg, DecimalValue(whole, frac)))
  {
    var body := whole + "." + frac;
    assert (if neg then "-" else "") + whole + "." + frac == (if neg then "-" else "") + body;
    SplitSignBeforeDigit(neg, body);
    UnsignedDecimal(whole, frac);
  }

  lemma DecimalOfPointZero(d: string)
    requires AllDigits(d)
    ensures DecimalValue(d, "0") == DigitsValue(d) as real
  {
    assert DigitsValue("0") == 0 by {
      assert "0"[..0] == [];
    }
  }

  /** float() reads `digits.0` as the integer the digits denote. */
  lemma ParseFloatOfPointZero(neg: bool, d: string)
    requires d != [] && AllDigits(d)
    ensures ParseFloat((if neg then "-" else "") + d + ".0") == Some(SignedReal(neg, DigitsValue(d) as real))
  {
    ParseFloatOfDecimal(neg, d, "0");
    assert (if neg then "-" else "") + d + "." + "0" == (if neg then "-" else "") + d + ".0";
    DecimalOfPointZero(d);
  }

  lemma ParseNatText(m: nat)
    ensures ParseFloat(NatText(m) + ".0") == Some(m as real)
  {
    DigitsValueOfNatText(m);
    ParseFloatOfPointZero(false, NatText(m));
    assert "" + NatText(m) + ".0" == NatText(m) + ".0";
  }

  lemma ParseNegatedNatText(m: nat)
    ensures ParseFloat("-" + NatText(m) + ".0") == Some(-(m as real))
  {
    DigitsValueOfNatText(m);
    ParseFloatOfPointZero(true, NatText(m));
  }

  /** float() reads back the text `n.0` of an integer n. */
  lemma ParseIntegralText(n: int)
    ensures ParseFloat(IntText(n) + ".0") == Some(n as real)
  {
    if n < 0 {
      ParseNegatedNatText(-n);
      assert IntText(n) + ".0" == "-" + NatText(-n) + ".0";
    } else {
      ParseNatText(n);
    }
  }

  /** float() reads back every integral float that str() writes. */
  lemma FloatTextRoundTripIntegral(n: int)
    ensures ParseFloat(FloatText(n as real)) == Some(n as real)
  {
    FloatTextOfIntegral(n);
    ParseIntegralText(n);
  }

  /** Truncation toward zero, as int() applies it to floats. */
  function Trunc(r: real): int
  {
    if r >= 0.0 then r.Floor else -((-r).Floor)
  }

  /** A character str() of a number can produce. */
  predicate NumeralChar(c: char) { IsDigit(c) || c == '-' || c == '.' }

  /** Text made of numeral characters only. */
  predicate Numeral(s: string)
  {
    s != [] ==> NumeralChar(s[0]) && Numeral(s[1..])
  }

  lemma {:induction false} NumeralAt(s: string)
    requires Numeral(s)
    ensures forall i :: 0 <= i < |s| ==> NumeralChar(s[i])
  {
    if s != [] {
      NumeralAt(s[1..]);
      assert forall i :: 1 <= i < |s| ==> s[i] == s[1..][i - 1];
    }
  }

  lemma {:induction false} DigitsNumeral(s: string)
    requires AllDigits(s)
    ensures Numeral(s)
  {
    if s != [] {
      DigitsNumeral(s[1..]);
    }
  }

  lemma {:induction false} NumeralAppend(a: string, b: string)
    requires Numeral(a) && Numeral(b)
    ensures Numeral(a + b)
  {
    if a != [] {
      NumeralAppend(a[1..], b);
      assert (a + b)[1..] == a[1..] + b;
    } else {
      assert a + b == b;
    }
  }

  /** str() of an integer or a float is written with digits, '-' and '.' only, and is never empty. */
  lemma NumberTextChars(x: Raw)
    requires x.RawInt? || x.RawFloat?
    ensures |StrOf(x)| > 0
    ensures forall i :: 0 <= i < |StrOf(x)| ==> NumeralChar(StrOf(x)[i])
  {
    if x.RawFloat? {
      FloatTextNumeral(x.r);
    } else {
      IntTextNumeral(x.i);
    }
    NumeralAt(StrOf(x));
  }

  lemma IntTextNumeral(n: int)
    ensures |IntText(n)| > 0 && Numeral(IntText(n))
  {
    if n < 0 {
      DigitsNumeral(NatText(-n));
      assert ("-" + NatText(-n))[1..] == NatText(-n);
    } else {
      DigitsNumeral(NatText(n));
    }
  }

  lemma FloatTextNumeral(r: real)
    ensures |FloatText(r)| > 0 && Numeral(FloatText(r))
  {
    if r < 0.0 {
      NegativeFloatText(r);
      NegatedFloatTextNumeral(r);
      NegatedNumeral(FloatText(r), FloatTextNonneg(-r));
    } else {
      FloatTextNonnegNumeral(r);
    }
  }

  lemma NegativeFloatText(r: real)
    requires r < 0.0
    ensures FloatText(r) == "-" + FloatTextNonneg(-r)
  {
  }

  /** The digits of a negative float, written without its sign. */
  lemma NegatedFloatTextNumeral(r: real)
    requires r < 0.0
    ensures Numeral(FloatTextNonneg(-r))
  {
    DecimalNumeral(NatText((-r).Floor), TrimZeros(FracDigits(-r - (-r).Floor as real, FractionWidth())));
  }

  lemma NegatedNumeral(s: string, t: string)
    requires s == "-" + t && Numeral(t)
    ensures |s| > 0 && Numeral(s)
  {
    assert s[1..] == t;
  }

  lemma FloatTextNonnegNumeral(a: real)
    requires a >= 0.0
    ensures |FloatTextNonneg(a)| > 0 && Numeral(FloatTextNonneg(a))
  {
    DecimalNumeral(NatText(a.Floor), TrimZeros(FracDigits(a - a.Floor as real, FractionWidth())));
  }

  lemma DecimalNumeral(whole: string, frac: string)
    requires AllDigits(whole) && AllDigits(frac)
    ensures Numeral(whole + "." + frac)
  {
    DigitsNumeral(whole);
    DigitsNumeral(frac);
    assert Numeral(".");
    NumeralAppend(whole, ".");
    NumeralAppend(whole + ".", frac);
  }

  // ---------------------------------------------------------------------
  // The type constructors str(), float(), int()
  // ---------------------------------------------------------------------

  /** str(x). */
  function StrOf(x: Raw): string
  {
    match x
    case RawStr(s) => s
    case RawInt(i) => IntText(i)
    case RawFloat(r) => FloatText(r)
    case RawOther(shown) => shown
  }

  /**
   * TYPES[key](val): the declared type's constructor applied to an incoming
   * value. Text that is not a number raises ValueError; an object of another
   * class raises TypeError; str() never fails.
   */
  function Construct(ty: PyType, x: Raw): (r: Result<Value, Error>)
    ensures r.Ok? ==> HasType(r.value, ty)
    ensures r.Err? ==> r.error == ValueError || r.error == TypeError
    ensures r.Err? ==> ty != StrType && (r.error == TypeError <==> x.RawOther?)
  {
    match ty
    case StrType => Ok(Str(StrOf(x)))
    case FloatType =>
      (match x
       case RawStr(s) => (match ParseFloat(s) case Some(v) => Ok(Float(v)) case None => Err(ValueError))
       case RawInt(i) => Ok(Float(i as real))
       case RawFloat(v) => Ok(Float(v))
       case RawOther(_) => Err(TypeError))
    case IntType =>
      (match x
       case RawStr(s) => (match ParseInt(s) case Some(v) => Ok(Int(v)) case None => Err(ValueError))
       case RawInt(i) => Ok(Int(i))
       case RawFloat(v) => Ok(Int(Trunc(v)))
       case RawOther(_) => Err(TypeError))
  }

  /** A value that already has the declared type passes through its constructor unchanged. */
  lemma ConstructTyped(v: Value, ty: PyType)
    requires HasType(v, ty)
    ensures Construct(ty, AsRaw(v)) == Ok(v)
  {
  }

  // ---------------------------------------------------------------------
  // str methods and the ordering of strings
  // ---------------------------------------------------------------------

  function LowerChar(c: char): char
  {
    if 'A' <= c <= 'Z' then (c as int + 32) as char else c
  }

  /** str.lower() on ASCII text. */
  function Lower(s: string): (r: string)
    ensures |r| == |s|
  {
    if s == [] then [] else [LowerChar(s[0])] + Lower(s[1..])
  }

  /** Lower-casing works character by character. */
  lemma {:induction false} LowerAt(s: string)
    ensures forall i :: 0 <= i < |s| ==> Lower(s)[i] == LowerChar(s[i])
  {
    if s != [] {
      LowerAt(s[1..]);
    }
  }

  /** The characters str.rstrip() removes. */
  predicate IsSpace(c: char)
  {
    c == ' ' || c == '\t' || c == '\n' || c == '\r' || c as int == 11 || c as int == 12
  }

  /** str.rstrip(): all trailing whitespace removed. */
  function RStrip(s: string): (r: string)
    ensures |r| <= |s| && r == s[..|r|]
    ensures r == [] || !IsSpace(r[|r| - 1])
    ensures forall i :: |r| <= i < |s| ==> IsSpace(s[i])
  {
    if s != [] && IsSpace(s[|s| - 1]) then RStrip(s[..|s| - 1]) else s
  }

  /** str.lstrip(c): all leading occurrences of c removed. */
  function LStrip(s: string, c: char): (r: string)
    ensures |r| <= |s| && r == s[|s| - |r|..]
    ensures r == [] || r[0] != c
    ensures forall i :: 0 <= i < |s| - |r| ==> s[i] == c
  {
    if s != [] && s[0] == c then LStrip(s[1..], c) else s
  }

  /** Python's `<` on strings: lexicographic on character codes. */
  predicate LexLess(a: string, b: string)
  {
    if a == [] then b != []
    else if b == [] then false
    else if a[0] != b[0] then a[0] < b[0]
    else LexLess(a[1..], b[1..])
  }

  lemma {:induction false} LexTrichotomy(a: string, b: string)
    ensures LexLess(a, b) || a == b || LexLess(b, a)
    ensures !(LexLess(a, b) && LexLess(b, a))
    ensures !LexLess(a, a)
  {
    if a != [] && b != [] {
      LexTrichotomy(a[1..], b[1..]);
      if a[0] == b[0] && a[1..] == b[1..] {
        assert a == [a[0]] + a[1..] && b == [b[0]] + b[1..];
      }
    }
    if a != [] {
      LexTrichotomy(a[1..], a[1..]);
    }
  }

  /** Python's `<` between two values of the same field type. */
  predicate Less(a: Value, b: Value)
  {
    match (a, b)
    case (Str(x), Str(y)) => LexLess(x, y)
    case (Float(x), Float(y)) => x < y
    case (Int(x), Int(y)) => x < y
    case _ => false
  }

  /** Values of one type are totally ordered by Less. */
  lemma LessTrichotomy(a: Value, b: Value, ty: PyType)
    requires HasType(a, ty) && HasType(b, ty)
    ensures Less(a, b) || a == b || Less(b, a)
    ensures !(Less(a, b) && Less(b, a))
    ensures !Less(a, a)
  {
    if a.Str? && b.Str? {
      LexTrichotomy(a.s, b.s);
    }
  }
}
