/**
  Python's `int(s)` and `float(s)` applied to text: surrounding blanks are
  ignored, an optional sign may lead, and the rest must be ASCII decimal
  digits (for `float`, with at most one decimal point and at least one digit).
  Text they reject raises `ValueError`, modelled as `None`.
 */
module PyNumbers {
  import opened Wrappers
  import opened Text

  predicate IsSign(c: char)
  {
    c == '+' || c == '-'
  }

  /** The sign a numeral starts with, applied to a magnitude. */
  function Signed(t: string, m: real): real
  {
    if t != [] && t[0] == '-' then -m else m
  }

  /** The numeral after an optional leading sign. */
  function Unsigned(t: string): string
  {
    if t != [] && IsSign(t[0]) then t[1..] else t
  }

  /** `int(s)`. */
  function ParseInt(s: string): (r: Option<int>)
    ensures r.Some? <==> IsDigits(Unsigned(Strip(s)))
    ensures r.Some? ==> (r.value < 0 ==> Strip(s)[0] == '-')
  {
    var t := Strip(s);
    var u := Unsigned(t);
    if IsDigits(u) then
      Some(if t[0] == '-' then -(Value(u) as int) else Value(u))
    else None
  }

  /** A decimal fraction: digits, then optionally a point and more digits, with a digit somewhere. */
  predicate IsDecimal(u: string)
  {
    var ps := SplitOn(u, '.');
    (|ps| == 1 && IsDigits(ps[0]))
    || (|ps| == 2 && AllDigits(ps[0]) && AllDigits(ps[1]) && (ps[0] != [] || ps[1] != []))
  }

  /** The value of the digits after a decimal point. */
  function Fraction(f: string): (x: real)
    requires AllDigits(f)
    ensures 0.0 <= x
  {
    Value(f) as real / Pow10(|f|) as real
  }

  /** The value of a decimal fraction. */
  function DecimalValue(u: string): (x: real)
    requires IsDecimal(u)
    ensures x >= 0.0
  {
    var ps := SplitOn(u, '.');
    if |ps| == 1 then Value(ps[0]) as real
    else Value(ps[0]) as real + Fraction(ps[1])
  }

  /** `float(s)` (exponents, underscores, `inf` and `nan` are not modelled). */
  function ParseFloat(s: string): (r: Option<real>)
    ensures r.Some? <==> IsDecimal(Unsigned(Strip(s)))
    ensures r.Some? ==> (r.value < 0.0 ==> Strip(s)[0] == '-')
  {
    var t := Strip(s);
    var u := Unsigned(t);
    if IsDecimal(u) then Some(Signed(t, DecimalValue(u))) else None
  }

  lemma DigitsHaveNoSpace(s: string)
    requires AllDigits(s)
    ensures NoSpace(s)
  {
    forall i | 0 <= i < |s| ensures !IsSpace(s[i]) {
      assert IsDigit(s[i]);
    }
  }

  /** A run of ASCII digits reads as the number it denotes, both as an integer and as a float. */
  lemma ParseDigits(s: string)
    requires IsDigits(s)
    ensures ParseInt(s) == Some(Value(s) as int)
    ensures ParseFloat(s) == Some(Value(s) as real)
  {
    DigitsHaveNoSpace(s);
    StripTrimmed(s);
    assert !IsSign(s[0]) by { assert IsDigit(s[0]); }
    assert '.' !in s by {
      forall i | 0 <= i < |s| ensures s[i] != '.' {
        assert IsDigit(s[i]);
      }
    }
    SplitNone(s, '.');
  }

  /** A signed run of digits reads as the signed number. */
  lemma ParseNegative(d: string)
    requires IsDigits(d)
    ensures ParseInt("-" + d) == Some(-(Value(d) as int))
  {
    NegativeShape(d);
  }

  /** A minus sign before digits: already stripped, and the digits follow the sign. */
  lemma NegativeShape(d: string)
    requires IsDigits(d)
    ensures Strip("-" + d) == "-" + d && Unsigned("-" + d) == d
  {
    var s := "-" + d;
    assert !IsSpace(s[|s| - 1]) by {
      assert s[|s| - 1] == d[|d| - 1] && IsDigit(d[|d| - 1]);
    }
    StripTrimmed(s);
  }

  /** `int(str(n)) == n` for every non-negative integer `n`. */
  lemma ParseIntDecimal(n: nat)
    ensures ParseInt(Decimal(n)) == Some(n)
  {
    ParseDigits(Decimal(n));
    DecimalDenotes(n);
  }

  /** A numeral with a point: already stripped, unsigned, and split at the point into its two digit runs. */
  lemma FractionShape(a: string, b: string)
    requires AllDigits(a) && AllDigits(b) && a != []
    ensures var s := a + "." + b;
      Strip(s) == s && Unsigned(s) == s && SplitOn(s, '.') == [a, b] && s[0] != '-'
  {
    var s := a + "." + b;
    assert s[0] == a[0] && IsDigit(a[0]);
    FractionStripped(a, b);
    FractionSplit(a, b);
  }

  lemma FractionStripped(a: string, b: string)
    requires AllDigits(a) && AllDigits(b) && a != []
    ensures Strip(a + "." + b) == a + "." + b
  {
    var s := a + "." + b;
    assert s[0] == a[0] && IsDigit(a[0]);
    assert !IsSpace(s[|s| - 1]) by {
      if b != [] {
        assert s[|s| - 1] == b[|b| - 1] && IsDigit(b[|b| - 1]);
      }
    }
    StripTrimmed(s);
  }

  lemma FractionSplit(a: string, b: string)
    requires AllDigits(a) && AllDigits(b)
    ensures SplitOn(a + "." + b, '.') == [a, b]
  {
    assert '.' !in a && '.' !in b by {
      forall i | 0 <= i < |a| ensures a[i] != '.' { assert IsDigit(a[i]); }
      forall i | 0 <= i < |b| ensures b[i] != '.' { assert IsDigit(b[i]); }
    }
    SplitTwoPieces(a, b, '.');
  }

  /** A numeral with a fractional part reads as its integer part plus its fraction. */
  lemma ParseFloatFraction(a: string, b: string)
    requires AllDigits(a) && AllDigits(b) && a != []
    ensures ParseFloat(a + "." + b) == Some(Value(a) as real + Fraction(b))
  {
    FractionShape(a, b);
  }

  /** The numeral after the sign only holds characters of the numeral. */
  lemma UnsignedInside(t: string)
    ensures forall c :: c in Unsigned(t) ==> c in t
  {
    if t != [] && IsSign(t[0]) {
      assert t == [t[0]] + t[1..];
    }
  }

  /** Text without a digit is never a number. */
  lemma NoDigitNoNumber(s: string)
    requires forall c :: c in s ==> !IsDigit(c)
    ensures ParseInt(s) == None && ParseFloat(s) == None
  {
    var u := Unsigned(Strip(s));
    assert forall c :: c in u ==> !IsDigit(c) by {
      StripInside(s);
      UnsignedInside(Strip(s));
    }
    assert !IsDigits(u) by {
      if u != [] {
        assert u[0] in u;
      }
    }
    var ps := SplitOn(u, '.');
    assert !IsDecimal(u) by {
      if |ps| == 1 {
        assert u == ps[0];
      } else if |ps| == 2 {
        SplitTwo(u, '.');
        if ps[0] != [] {
          assert ps[0][0] in u;
        }
        if ps[1] != [] {
          assert ps[1][0] in u;
        }
      }
    }
  }
}
