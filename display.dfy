/**
  The two display formatters of `core/utils.py` (copied verbatim into `main.py`):
  a date or time cell read from the database is shown as its first
  whitespace-separated token, and the time form also loses a `.000000`
  microsecond suffix.
 */
module Display {
  import opened Wrappers
  import opened Text

  /** Python truthiness of a text cell: `None` and the empty string are false. */
  predicate Truthy(v: Option<string>)
  {
    v.Some? && v.value != []
  }

  /** `str(valor).split()[0] if valor else ""`; indexing an empty split raises `IndexError`. */
  function FormatDate(v: Option<string>): (r: Result<string>)
    ensures !Truthy(v) ==> r == Ok("")
    ensures Truthy(v) ==> (r.Raised? <==> AllSpace(v.value))
    ensures Truthy(v) && r.Ok? ==> r.value != [] && NoSpace(r.value)
  {
    if Truthy(v) then
      var ws := Words(v.value);
      WordsEmpty(v.value);
      if ws == [] then Raised("IndexError") else Ok(ws[0])
    else Ok("")
  }

  const Micros: string := ".000000"

  /** `str(valor).split()[0].replace('.000000', '') if valor else ""`. */
  function FormatTime(v: Option<string>): (r: Result<string>)
    ensures !Truthy(v) ==> r == Ok("")
    ensures Truthy(v) ==> (r.Raised? <==> AllSpace(v.value))
    ensures r.Ok? ==> NoSpace(r.value)
  {
    if Truthy(v) then
      var ws := Words(v.value);
      WordsEmpty(v.value);
      if ws == [] then Raised("IndexError")
      else
        var r := RemoveAll(ws[0], Micros);
        assert NoSpace(r) by {
          forall i | 0 <= i < |r| ensures !IsSpace(r[i]) {
            var k :| 0 <= k < |ws[0]| && ws[0][k] == r[i];
          }
        }
        Ok(r)
    else Ok("")
  }

  /**
    The date shown is the first token of the cell: it starts at the first
    non-blank character, only blanks come before it, and it ends at a blank or
    at the end of the text.
   */
  lemma FormatDateFirstToken(s: string)
    requires !AllSpace(s)
    ensures FormatDate(Some(s)).Ok?
    ensures var r, a := FormatDate(Some(s)).value, SkipBlanks(s, 0);
      a + |r| <= |s| && AllSpace(s[..a]) && s[a..a + |r|] == r && (a + |r| == |s| || IsSpace(s[a + |r|]))
  {
    WordsEmpty(s);
    FirstWord(s);
  }

  /** Formatting a shown date again shows the same date. */
  lemma FormatDateIdempotent(v: Option<string>)
    requires FormatDate(v).Ok?
    ensures FormatDate(Some(FormatDate(v).value)) == FormatDate(v)
  {
    var r := FormatDate(v).value;
    if r != [] {
      WordsOfWord(r);
    }
  }

  /** A stored timestamp is shown as its date part. */
  lemma ExampleTimestamp()
    ensures FormatDate(Some("2026-02-10 08:30:00")) == Ok("2026-02-10")
  {
    var w, rest := "2026-02-10", "08:30:00";
    assert "2026-02-10 08:30:00" == w + [' '] + rest;
    WordsCons(w, rest);
  }

  /** Removing every non-overlapping `pat` from `t + pat`, where `t` cannot start a match, leaves `t`. */
  lemma {:induction false} RemoveAllSuffix(t: string, pat: string)
    requires pat != [] && pat[0] !in t
    ensures RemoveAll(t + pat, pat) == t
    decreases |t|
  {
    var s := t + pat;
    if t == [] {
      assert s[..|pat|] == pat && s[|pat|..] == [];
    } else {
      assert s[0] == t[0] != pat[0];
      assert s[1..] == t[1..] + pat;
      RemoveAllSuffix(t[1..], pat);
      assert t == [t[0]] + t[1..];
    }
  }

  /** A time stored with a zero microsecond part is shown without it; one without a '.' is shown as stored. */
  lemma FormatTimeMicros(t: string)
    requires t != [] && NoSpace(t) && '.' !in t
    ensures FormatTime(Some(t + Micros)) == Ok(t)
    ensures FormatTime(Some(t)) == Ok(t)
  {
    var s := t + Micros;
    assert NoSpace(s) by {
      assert forall k :: |t| <= k < |s| ==> s[k] == Micros[k - |t|];
    }
    WordsOfWord(s);
    WordsOfWord(t);
    RemoveAllSuffix(t, Micros);
    RemoveAllAbsent(t, Micros);
  }

  /** The time form fails exactly where the date form does, and shows the date form's token without microseconds. */
  lemma TimeFollowsDate(v: Option<string>)
    ensures FormatTime(v).Ok? <==> FormatDate(v).Ok?
    ensures FormatDate(v).Ok? ==> FormatTime(v).value == RemoveAll(FormatDate(v).value, Micros)
  {
    if !Truthy(v) {
      assert RemoveAll("", Micros) == "";
    }
  }
}
