/**
  `tempo_para_minutos` of `main.py`: a stored duration such as "00:12:30"
  (possibly after a date and a space) converted to minutes, with 0.0 for
  anything it cannot read.
 */
module Minutes {
  import opened Wrappers
  import opened Text
  import opened PyNumbers
  import opened Display
  import DicomParser
  import Analytics

  /** `s.split(' ')[-1]`: the text after the last space. */
  function LastPiece(s: string): (t: string)
    ensures ' ' !in t
  {
    var ps := SplitOn(s, ' ');
    ps[|ps| - 1]
  }

  /** `h, m, s = t.split(':')` unpacks and `int(h)`, `int(m)` and `float(s)` all read. */
  predicate Clock(t: string)
  {
    var f := SplitOn(t, ':');
    |f| == 3 && ParseInt(f[0]).Some? && ParseInt(f[1]).Some? && ParseFloat(f[2]).Some?
  }

  /**
    `tempo_para_minutos(tempo_str)`: a falsy value or the text "None" gives 0.0;
    otherwise the last space-separated piece must split on ':' into exactly three
    fields read by `int`, `int` and `float`, giving h * 60 + m + s / 60; any failure gives 0.0.
   */
  function TimeToMinutes(v: Option<string>): (r: real)
    ensures !Truthy(v) || v.value == "None" ==> r == 0.0
    ensures r != 0.0 ==> |SplitOn(LastPiece(v.value), ':')| == 3
    ensures Truthy(v) && v.value != "None" && !Clock(LastPiece(v.value)) ==> r == 0.0
    ensures Truthy(v) && v.value != "None" && Clock(LastPiece(v.value)) ==>
      var f := SplitOn(LastPiece(v.value), ':');
      r == (ParseInt(f[0]).value * 60 + ParseInt(f[1]).value) as real + ParseFloat(f[2]).value / 60.0
  {
    if !Truthy(v) || v.value == "None" then 0.0
    else
      var fields := SplitOn(LastPiece(v.value), ':');
      if |fields| != 3 then 0.0
      else
        match (ParseInt(fields[0]), ParseInt(fields[1]), ParseFloat(fields[2]))
        case (Some(h), Some(m), Some(s)) => (h * 60 + m) as real + s / 60.0
        case _ => 0.0
  }

  /** Joining one more piece on the right adds the separator and that piece. */
  lemma {:induction false} JoinSnoc(ps: seq<string>, c: string, sep: char)
    requires |ps| >= 1
    ensures JoinWith(ps + [c], sep) == JoinWith(ps, sep) + [sep] + c
    decreases |ps|
  {
    if |ps| > 1 {
      assert (ps + [c])[1..] == ps[1..] + [c];
      JoinSnoc(ps[1..], c, sep);
    }
  }

  /** The last piece of `d + " " + c`, for `c` without a space, is `c`. */
  lemma LastPieceAfterSpace(d: string, c: string)
    requires ' ' !in c
    ensures LastPiece(d + " " + c) == c
  {
    var ps := SplitOn(d, ' ');
    JoinSnoc(ps, c, ' ');
    assert forall i :: 0 <= i < |ps + [c]| ==> ' ' !in (ps + [c])[i];
    SplitOnUnique(d + " " + c, ' ', ps + [c]);
  }

  lemma NoSpaceNone()
    ensures ' ' !in "None" && ':' !in "None"
  {
    var n := "None";
    assert n[0] == 'N' && n[1] == 'o' && n[2] == 'n' && n[3] == 'e';
  }

  /** A date (or anything else) before the last space does not change the minutes. */
  lemma DatePrefixIgnored(d: string, c: string)
    requires ' ' !in c
    ensures TimeToMinutes(Some(d + " " + c)) == TimeToMinutes(Some(c))
  {
    var s := d + " " + c;
    LastPieceAfterSpace(d, c);
    NoSpaceNone();
    assert s[|d|] == ' ';
    assert s != "None";
    if c == "None" {
      SplitNone(c, ':');
    } else if c != [] {
      SplitNone(c, ' ');
    } else {
      SplitNone(c, ':');
    }
  }

  /** The three fields of a formatted duration, each a run of at least two digits. */
  lemma DurationFields(t: real)
    requires t >= 0.0
    ensures var f := DicomParser.HmsFields(t);
      f.0 >= 0 && f.0 * 3600 + f.1 * 60 + f.2 == t.Floor
      && DicomParser.FormatDuration(t) == DicomParser.Pad2(f.0) + ":" + DicomParser.Pad2(f.1) + ":" + DicomParser.Pad2(f.2)
  {
    var f := DicomParser.HmsFields(t);
    assert t.Floor >= 0;
    assert f.0 * 3600 >= -3599;
  }

  /** Three digit runs joined by colons are read as hours, minutes and seconds. */
  lemma ClockText(h: string, m: string, s: string)
    requires IsDigits(h) && IsDigits(m) && IsDigits(s)
    ensures TimeToMinutes(Some(h + ":" + m + ":" + s)) == (Value(h) * 60 + Value(m)) as real + Value(s) as real / 60.0
  {
    ClockShape(h, m, s);
    ParseDigits(h);
    ParseDigits(m);
    ParseDigits(s);
  }

  lemma ClockShape(h: string, m: string, s: string)
    requires IsDigits(h) && IsDigits(m) && IsDigits(s)
    ensures var text := h + ":" + m + ":" + s;
      text != "None" && LastPiece(text) == text && SplitOn(text, ':') == [h, m, s]
  {
    var text := h + ":" + m + ":" + s;
    assert |text| >= 5;
    assert ' ' !in text by {
      DigitsHaveNoSpace(h);
      DigitsHaveNoSpace(m);
      DigitsHaveNoSpace(s);
    }
    SplitNone(text, ' ');
    ColonFree(h);
    ColonFree(m);
    ColonFree(s);
    SplitThree(h, m, s, ':');
  }

  /** Reading back the HH:MM:SS text written for a non-negative number of seconds gives its whole seconds in minutes. */
  lemma MinutesOfFormattedDuration(t: real)
    requires t >= 0.0
    ensures TimeToMinutes(Some(DicomParser.FormatDuration(t))) == t.Floor as real / 60.0
  {
    var f := DicomParser.HmsFields(t);
    DurationFields(t);
    ClockText(DicomParser.Pad2(f.0), DicomParser.Pad2(f.1), DicomParser.Pad2(f.2));
    WholeMinutes(f.0, f.1, f.2, t.Floor);
  }

  /** The table's minutes column reads an imported record's duration as its whole seconds of fluoroscopy, in minutes. */
  lemma RecordMinutes(ds: DicomParser.Dataset, today: string, m: DicomParser.Metrics)
    requires m.fluoro >= 0.0
    ensures TimeToMinutes(Some(DicomParser.RecordOf(ds, today, m).duration)) == m.fluoro.Floor as real / 60.0
  {
    MinutesOfFormattedDuration(m.fluoro);
  }

  lemma ColonFree(s: string)
    requires AllDigits(s)
    ensures ':' !in s
  {
    forall i | 0 <= i < |s| ensures s[i] != ':' {
      assert IsDigit(s[i]);
    }
  }

  lemma WholeMinutes(h: int, m: int, s: int, total: int)
    requires h * 3600 + m * 60 + s == total
    ensures (h * 60 + m) as real + s as real / 60.0 == total as real / 60.0
  {
  }

  /**
    Below 100 hours, where every field of the stored text has two digits, the
    conversion here and the one the duration statistics run in SQL agree.
   */
  lemma AgreesWithSqlMinutes(t: real)
    requires 0.0 <= t < 360000.0
    ensures TimeToMinutes(Some(DicomParser.FormatDuration(t))) == Analytics.SqlMinutes(DicomParser.FormatDuration(t))
  {
    MinutesOfFormattedDuration(t);
    Analytics.MinutesOfDuration(t);
  }

  lemma TwoDigits(s: string)
    requires |s| == 2 && AllDigits(s)
    ensures Value(s) == DigitValue(s[0]) * 10 + DigitValue(s[1])
  {
    assert s[..1][..0] == [];
    assert Value(s[..1]) == DigitValue(s[0]);
  }

  /** Ten minutes and thirty seconds are 10.5 minutes. */
  lemma ExampleClock()
    ensures TimeToMinutes(Some("00:10:30")) == 10.5
  {
    var h, m, s := "00", "10", "30";
    assert "00:10:30" == h + ":" + m + ":" + s;
    TwoDigits(h);
    TwoDigits(m);
    TwoDigits(s);
    ClockText(h, m, s);
  }

  /** A stored timestamp with a date in front is read by its time alone. */
  lemma ExampleTimestamp()
    ensures TimeToMinutes(Some("2026-02-10 00:10:30")) == 10.5
  {
    var c := "00:10:30";
    assert "2026-02-10" + " " + c == "2026-02-10 00:10:30";
    assert ' ' !in c by {
      assert forall i :: 0 <= i < |c| ==> c[i] != ' ';
    }
    DatePrefixIgnored("2026-02-10", c);
    ExampleClock();
  }

  /** Hours and minutes alone are not a duration this conversion reads. */
  lemma ExampleTwoFields()
    ensures TimeToMinutes(Some("01:30")) == 0.0
  {
    var c := "01:30";
    assert ' ' !in c && c[2] == ':' by {
      assert forall i :: 0 <= i < |c| ==> c[i] != ' ';
    }
    SplitNone(c, ' ');
    assert c == "01" + [':'] + "30";
    assert |SplitOn(c, ':')| == 2 by {
      assert ':' !in "01" && ':' !in "30" by {
        assert forall i :: 0 <= i < 2 ==> "01"[i] != ':' && "30"[i] != ':';
      }
      SplitTwoPieces("01", "30", ':');
    }
  }

  /** Three fields that `int` cannot read fall into the `except` branch and give 0.0. */
  lemma ExampleNonNumeric()
    ensures TimeToMinutes(Some("aa:bb:cc")) == 0.0
  {
    var a, b, c := "aa", "bb", "cc";
    var t := a + ":" + b + ":" + c;
    assert t == "aa:bb:cc";
    assert ' ' !in t && ':' !in a && ':' !in b && ':' !in c && !IsDigit('a') by {
      assert forall i :: 0 <= i < |t| ==> t[i] != ' ';
    }
    SplitNone(t, ' ');
    SplitThree(a, b, c, ':');
    NoDigitNoNumber(a);
  }
}
