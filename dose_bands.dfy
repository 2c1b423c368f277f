/**
  The warning colour of the dose cell in the exam table of `main.py`: the stored
  dose is read as a number (a decimal comma counts as a point, unreadable text
  counts as 0) and falls into one of five bands from 1000 upwards, each with its
  own colour; below 1000 the cell carries no warning.
 */
module DoseBands {
  import opened Wrappers
  import opened Text
  import opened PyNumbers

  datatype Band = NoWarning | Purple | Blue | Yellow | Orange | Red

  /** The colour of the warning icon and text; `None` for no warning. */
  function Colour(b: Band): (c: Option<string>)
    ensures c.None? <==> b == NoWarning
  {
    match b
    case NoWarning => None
    case Purple => Some("#8F00FF")
    case Blue => Some("blue")
    case Yellow => Some("yellow")
    case Orange => Some("orange")
    case Red => Some("red")
  }

  /** `float(str(cell).replace(',', '.'))`, or 0.0 when that raises; an empty cell reads as the text "None". */
  function DoseValue(cell: Option<string>): (v: real)
    ensures cell.None? ==> v == 0.0
    ensures cell.Some? && ParseFloat(ReplaceChar(cell.value, ',', '.')).Some? ==>
      v == ParseFloat(ReplaceChar(cell.value, ',', '.')).value
    ensures v != 0.0 ==> cell.Some? && ParseFloat(ReplaceChar(cell.value, ',', '.')) == Some(v)
  {
    var text := if cell.Some? then cell.value else "None";
    match ParseFloat(ReplaceChar(text, ',', '.'))
    case Some(x) => x
    case None => 0.0
  }

  /** The if-chain choosing the cell's colour. */
  function BandOf(v: real): (b: Band)
    ensures b == NoWarning <==> v < 1000.0
    ensures b == Red <==> v >= 5000.0
  {
    if v >= 1000.0 && v < 2000.0 then Purple
    else if v >= 2000.0 && v < 3000.0 then Blue
    else if v >= 3000.0 && v < 4000.0 then Yellow
    else if v >= 4000.0 && v < 5000.0 then Orange
    else if v >= 5000.0 then Red
    else NoWarning
  }

  /** How severe a band is: 0 for no warning up to 5 for red. */
  function Severity(b: Band): nat
  {
    match b
    case NoWarning => 0
    case Purple => 1
    case Blue => 2
    case Yellow => 3
    case Orange => 4
    case Red => 5
  }

  /** The thresholds at which the colour changes. */
  const Thresholds: seq<real> := [1000.0, 2000.0, 3000.0, 4000.0, 5000.0]

  /** How many of `ts` the dose `v` has reached. */
  function Reached(v: real, ts: seq<real>): (n: nat)
    ensures n <= |ts|
  {
    if ts == [] then 0 else (if ts[0] <= v then 1 else 0) + Reached(v, ts[1..])
  }

  /** The band's severity is the number of thresholds the dose has reached. */
  lemma SeverityCountsThresholds(v: real)
    ensures Severity(BandOf(v)) == Reached(v, Thresholds)
  {
    ReachedCons(v, 1000.0, [2000.0, 3000.0, 4000.0, 5000.0]);
    ReachedCons(v, 2000.0, [3000.0, 4000.0, 5000.0]);
    ReachedCons(v, 3000.0, [4000.0, 5000.0]);
    ReachedCons(v, 4000.0, [5000.0]);
    ReachedCons(v, 5000.0, []);
  }

  lemma ReachedCons(v: real, t: real, rest: seq<real>)
    ensures Reached(v, [t] + rest) == (if t <= v then 1 else 0) + Reached(v, rest)
  {
    assert ([t] + rest)[1..] == rest;
  }

  /** A higher dose never gets a milder colour. */
  lemma BandMonotone(v: real, w: real)
    requires v <= w
    ensures Severity(BandOf(v)) <= Severity(BandOf(w))
  {
    SeverityCountsThresholds(v);
    SeverityCountsThresholds(w);
    ReachedMonotone(v, w, Thresholds);
  }

  lemma {:induction false} ReachedMonotone(v: real, w: real, ts: seq<real>)
    requires v <= w
    ensures Reached(v, ts) <= Reached(w, ts)
  {
    if ts != [] {
      ReachedMonotone(v, w, ts[1..]);
    }
  }

  /** A cell is shown with a warning exactly when its dose is at least 1000. */
  lemma WarningFromOneThousand(v: real)
    ensures Colour(BandOf(v)).Some? <==> v >= 1000.0
  {
  }

  /** A cell whose text holds no digit (an empty cell included) reads as 0 and carries no warning. */
  lemma UnreadableNoWarning(cell: Option<string>)
    requires cell.Some? ==> forall c :: c in cell.value ==> !IsDigit(c)
    ensures DoseValue(cell) == 0.0 && BandOf(DoseValue(cell)) == NoWarning
  {
    var text := if cell.Some? then cell.value else "None";
    var t := ReplaceChar(text, ',', '.');
    assert forall c :: c in t ==> !IsDigit(c) by {
      forall c | c in t ensures !IsDigit(c) {
        var i :| 0 <= i < |t| && t[i] == c;
        if cell.None? {
          assert text[i] in "None";
        } else {
          assert text[i] in text;
        }
      }
    }
    NoDigitNoNumber(t);
  }

  /** A dose written with a decimal comma is read like one written with a point. */
  lemma DecimalComma(a: string, b: string)
    requires IsDigits(a) && AllDigits(b)
    ensures DoseValue(Some(a + "," + b)) == Value(a) as real + Fraction(b)
  {
    CommaToPoint(a, b);
    ParseFloatFraction(a, b);
  }

  /** A dose already written with a point reads the same way. */
  lemma DecimalPoint(a: string, b: string)
    requires IsDigits(a) && AllDigits(b)
    ensures DoseValue(Some(a + "." + b)) == Value(a) as real + Fraction(b)
  {
    var s := a + "." + b;
    forall i | 0 <= i < |s|
      ensures s[i] != ','
    {
      if i < |a| {
        assert IsDigit(a[i]);
      } else if i > |a| {
        assert IsDigit(b[i - |a| - 1]);
      }
    }
    assert ReplaceChar(s, ',', '.') == s;
    ParseFloatFraction(a, b);
  }

  lemma CommaToPoint(a: string, b: string)
    requires AllDigits(a) && AllDigits(b)
    ensures ReplaceChar(a + "," + b, ',', '.') == a + "." + b
  {
    var s := a + "," + b;
    forall i | 0 <= i < |s|
      ensures (if s[i] == ',' then '.' else s[i]) == (a + "." + b)[i]
    {
      if i < |a| {
        assert IsDigit(a[i]);
      } else if i > |a| {
        assert IsDigit(b[i - |a| - 1]);
      }
    }
  }

  lemma ValueSnoc(s: string, c: char)
    requires AllDigits(s) && IsDigit(c)
    ensures Value(s + [c]) == Value(s) * 10 + DigitValue(c)
  {
    assert (s + [c])[..|s|] == s;
  }

  lemma ExampleValues()
    ensures Value("1500") == 1500 && Fraction("5") == 0.5
  {
    assert "" + ['1'] == "1" && "1" + ['5'] == "15" && "15" + ['0'] == "150" && "150" + ['0'] == "1500";
    ValueSnoc("", '1');
    ValueSnoc("1", '5');
    ValueSnoc("15", '0');
    ValueSnoc("150", '0');
    ExampleFraction();
  }

  lemma ExampleFraction()
    ensures Fraction("5") == 0.5
  {
    assert "" + ['5'] == "5";
    ValueSnoc("", '5');
  }

  /** "1500,5" is read as 1500.5 and shown purple. */
  lemma ExampleCommaDose()
    ensures DoseValue(Some("1500,5")) == 1500.5
    ensures Colour(BandOf(DoseValue(Some("1500,5")))) == Some("#8F00FF")
  {
    var a, b := "1500", "5";
    assert a + "," + b == "1500,5";
    DecimalComma(a, b);
    ExampleValues();
  }

  lemma ExamplePointDose()
    ensures DoseValue(Some("1500.5")) == 1500.5
    ensures Colour(BandOf(DoseValue(Some("1500.5")))) == Some("#8F00FF")
  {
    var a, b := "1500", "5";
    assert a + "." + b == "1500.5";
    DecimalPoint(a, b);
    ExampleValues();
  }
}
