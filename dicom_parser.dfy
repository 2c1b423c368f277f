/**
  Import of DICOM Structured Report (SR) dose documents (core/dicom_parser.py).

  A document's content tree (ContentSequence, DICOM PS3.3 section C.17.3) is
  walked in pre-order; the items coded 113725 (Dose (RP) Total), 113722 (Dose
  Area Product Total) and 113730 (Total Fluoro Time) of the DCM coding scheme
  (DICOM PS3.16) fill three slots of a per-document accumulator. Each document
  then becomes one exam record, and a batch of files yields a count of stored
  records and a count of errors.

  pydicom is abstracted away: a file is either unreadable or a `Dataset` whose
  attributes are present (`Some`) or absent (`None`), and whose content tree is
  a sequence of `Item`s (an absent ContentSequence is the empty sequence).
 */
module DicomParser {
  import opened Wrappers
  import opened Text
  import Calendar

  // ----- the content tree -----

  /** An item's ConceptNameCodeSequence: absent, a code value, or present with no item (reading `[0]` raises). */
  datatype Concept = NoConcept | Code(value: string) | EmptyCodeSequence

  /** An item's MeasuredValueSequence: absent, a number, or present but without a readable `[0].NumericValue`. */
  datatype Measurement = NoMeasurement | Numeric(value: real) | UnreadableMeasurement

  datatype Item = Item(concept: Concept, measured: Measurement, children: seq<Item>)

  const DoseCode: string := "113725"
  const DapCode: string := "113722"
  const FluoroCode: string := "113730"

  /** The `metrics` dictionary: Dose (Gy), DAP (Gy·m²) and TempoFluoro (s). */
  datatype Metrics = Metrics(dose: real, dap: real, fluoro: real)

  const ZeroMetrics := Metrics(0.0, 0.0, 0.0)

  /** The item carries code `c` and a readable number. */
  predicate Reads(it: Item, c: string)
  {
    it.concept == Code(c) && it.measured.Numeric?
  }

  /** Visiting the item raises: an empty code sequence, or a code with an unreadable value. */
  predicate Faulty(it: Item)
  {
    it.concept == EmptyCodeSequence || (it.concept.Code? && it.measured == UnreadableMeasurement)
  }

  /** What the walker does with one item's own concept and value, before its children. */
  function Visit(it: Item, m: Metrics): Result<Metrics>
  {
    match it.concept
    case NoConcept => Ok(m)
    case EmptyCodeSequence => Raised("IndexError: ConceptNameCodeSequence[0]")
    case Code(c) =>
      match it.measured
      case NoMeasurement => Ok(m)
      case UnreadableMeasurement => Raised("MeasuredValueSequence[0].NumericValue")
      case Numeric(v) =>
        if c == DoseCode then Ok(m.(dose := v))
        else if c == DapCode then Ok(m.(dap := v))
        else if c == FluoroCode then Ok(m.(fluoro := m.fluoro + v))
        else Ok(m)
  }

  /** `extrair_simples(items, dest)`: each item's own value, then its ContentSequence, then the next item. */
  function Walk(items: seq<Item>, m: Metrics): Result<Metrics>
    decreases items
  {
    if items == [] then Ok(m)
    else
      assert items[0] in items;
      match Visit(items[0], m)
      case Raised(e) => Raised(e)
      case Ok(m1) =>
        match Walk(items[0].children, m1)
        case Raised(e) => Raised(e)
        case Ok(m2) => Walk(items[1..], m2)
  }

  /** The items of a content tree in pre-order: each item, then its subtree, then its later siblings. */
  function Preorder(items: seq<Item>): seq<Item>
    decreases items
  {
    if items == [] then []
    else
      assert items[0] in items;
      [items[0]] + Preorder(items[0].children) + Preorder(items[1..])
  }

  /** Visiting a flat list of items left to right, stopping at the first that raises. */
  function VisitAll(flat: seq<Item>, m: Metrics): Result<Metrics>
  {
    if flat == [] then Ok(m)
    else
      match Visit(flat[0], m)
      case Raised(e) => Raised(e)
      case Ok(m1) => VisitAll(flat[1..], m1)
  }

  /** The sum of the values of the items coded `c` that carry a number. */
  function SumOf(flat: seq<Item>, c: string): real
  {
    if flat == [] then 0.0
    else (if Reads(flat[0], c) then flat[0].measured.value else 0.0) + SumOf(flat[1..], c)
  }

  /** `x` is the value of the last item coded `c` carrying a number, or `d` when there is none. */
  ghost predicate LastOr(flat: seq<Item>, c: string, x: real, d: real)
  {
    || (exists i :: 0 <= i < |flat| && Reads(flat[i], c) && x == flat[i].measured.value
                    && forall j :: i < j < |flat| ==> !Reads(flat[j], c))
    || ((forall i :: 0 <= i < |flat| ==> !Reads(flat[i], c)) && x == d)
  }

  lemma {:induction false} VisitAllAppend(a: seq<Item>, b: seq<Item>, m: Metrics)
    ensures VisitAll(a + b, m) == match VisitAll(a, m) case Ok(m1) => VisitAll(b, m1) case Raised(e) => Raised(e)
  {
    if a != [] {
      assert (a + b)[0] == a[0] && (a + b)[1..] == a[1..] + b;
      match Visit(a[0], m)
      case Raised(e) =>
      case Ok(m1) => VisitAllAppend(a[1..], b, m1);
    } else {
      assert a + b == b;
    }
  }

  /** The recursive walk is a left-to-right visit of the tree's items in pre-order, at any depth. */
  lemma {:induction false} WalkIsPreorderVisit(items: seq<Item>, m: Metrics)
    ensures Walk(items, m) == VisitAll(Preorder(items), m)
    decreases items
  {
    if items != [] {
      assert items[0] in items;
      var it := items[0];
      var pre := Preorder(items);
      assert pre == [it] + (Preorder(it.children) + Preorder(items[1..]));
      assert pre[0] == it && pre[1..] == Preorder(it.children) + Preorder(items[1..]);
      match Visit(it, m)
      case Raised(e) =>
      case Ok(m1) =>
        WalkIsPreorderVisit(it.children, m1);
        VisitAllAppend(Preorder(it.children), Preorder(items[1..]), m1);
        match Walk(it.children, m1)
        case Raised(e) =>
        case Ok(m2) => WalkIsPreorderVisit(items[1..], m2);
    }
  }

  /** A visit raises exactly when some item is faulty. */
  lemma {:induction false} VisitAllRaises(flat: seq<Item>, m: Metrics)
    ensures VisitAll(flat, m).Raised? <==> exists i :: 0 <= i < |flat| && Faulty(flat[i])
  {
    if flat != [] {
      match Visit(flat[0], m)
      case Raised(e) =>
      case Ok(m1) =>
        VisitAllRaises(flat[1..], m1);
        if exists i :: 0 <= i < |flat| && Faulty(flat[i]) {
          var i :| 0 <= i < |flat| && Faulty(flat[i]);
          assert i > 0 && Faulty(flat[1..][i - 1]);
        }
        if exists i :: 0 <= i < |flat[1..]| && Faulty(flat[1..][i]) {
          var i :| 0 <= i < |flat[1..]| && Faulty(flat[1..][i]);
          assert Faulty(flat[i + 1]);
        }
    }
  }

  /**
    What a successful visit leaves in the accumulator: TempoFluoro grows by the sum of every
    113730 value, while Dose and DAP hold the value of the last 113725 / 113722 item (or what
    they held before, if there is none). Items with other codes or without a value change nothing.
   */
  lemma {:induction false} VisitAllMeaning(flat: seq<Item>, m: Metrics, r: Metrics)
    requires VisitAll(flat, m) == Ok(r)
    ensures r.fluoro == m.fluoro + SumOf(flat, FluoroCode)
    ensures LastOr(flat, DoseCode, r.dose, m.dose)
    ensures LastOr(flat, DapCode, r.dap, m.dap)
  {
    if flat != [] {
      var m1 := Visit(flat[0], m).value;
      VisitAllMeaning(flat[1..], m1, r);
      LastOrStep(flat, DoseCode, r.dose, m.dose, m1.dose);
      LastOrStep(flat, DapCode, r.dap, m.dap, m1.dap);
    }
  }

  lemma LastOrStep(flat: seq<Item>, c: string, x: real, d: real, d1: real)
    requires flat != []
    requires d1 == if Reads(flat[0], c) then flat[0].measured.value else d
    requires LastOr(flat[1..], c, x, d1)
    ensures LastOr(flat, c, x, d)
  {
    var tail := flat[1..];
    if exists i :: 0 <= i < |tail| && Reads(tail[i], c) && x == tail[i].measured.value
                   && forall j :: i < j < |tail| ==> !Reads(tail[j], c) {
      var i :| 0 <= i < |tail| && Reads(tail[i], c) && x == tail[i].measured.value
               && forall j :: i < j < |tail| ==> !Reads(tail[j], c);
      assert flat[i + 1] == tail[i];
      assert forall j :: i + 1 < j < |flat| ==> flat[j] == tail[j - 1];
    } else {
      assert forall j :: 0 < j < |flat| ==> flat[j] == tail[j - 1];
      if Reads(flat[0], c) {
        assert Reads(flat[0], c) && x == flat[0].measured.value && forall j :: 0 < j < |flat| ==> !Reads(flat[j], c);
      }
    }
  }

  /** The walk over a whole document, stated on the tree itself. */
  lemma DocumentMetrics(items: seq<Item>)
    ensures Walk(items, ZeroMetrics).Raised? <==> exists i :: 0 <= i < |Preorder(items)| && Faulty(Preorder(items)[i])
    ensures Walk(items, ZeroMetrics).Ok? ==>
      var r := Walk(items, ZeroMetrics).value;
      && r.fluoro == SumOf(Preorder(items), FluoroCode)
      && LastOr(Preorder(items), DoseCode, r.dose, 0.0)
      && LastOr(Preorder(items), DapCode, r.dap, 0.0)
  {
    WalkIsPreorderVisit(items, ZeroMetrics);
    VisitAllRaises(Preorder(items), ZeroMetrics);
    if Walk(items, ZeroMetrics).Ok? {
      VisitAllMeaning(Preorder(items), ZeroMetrics, Walk(items, ZeroMetrics).value);
    }
  }

  /** Two fluoroscopy times, 2.5 s at the top level and 1.5 s two levels down, add up to 4.0 s. */
  lemma NestedFluoroTimesAdd()
    ensures
      var deep := Item(Code(FluoroCode), Numeric(1.5), []);
      var middle := Item(Code("121144"), NoMeasurement, [deep]);
      var tree := [Item(Code(FluoroCode), Numeric(2.5), []), Item(NoConcept, NoMeasurement, [middle])];
      Walk(tree, ZeroMetrics) == Ok(Metrics(0.0, 0.0, 4.0))
  {
    var deep := Item(Code(FluoroCode), Numeric(1.5), []);
    var middle := Item(Code("121144"), NoMeasurement, [deep]);
    var tree := [Item(Code(FluoroCode), Numeric(2.5), []), Item(NoConcept, NoMeasurement, [middle])];
    assert Walk([deep], Metrics(0.0, 0.0, 2.5)) == Ok(Metrics(0.0, 0.0, 4.0));
    assert Walk([middle], Metrics(0.0, 0.0, 2.5)) == Ok(Metrics(0.0, 0.0, 4.0));
    assert Walk(tree[1..], Metrics(0.0, 0.0, 2.5)) == Ok(Metrics(0.0, 0.0, 4.0));
  }

  /** The `metrics` dictionary, updated in place by the walker. */
  class Accumulator {
    var dose: real
    var dap: real
    var fluoro: real

    function Snapshot(): Metrics
      reads this
    {
      Metrics(dose, dap, fluoro)
    }

    constructor ()
      ensures Snapshot() == ZeroMetrics
    {
      dose, dap, fluoro := 0.0, 0.0, 0.0;
    }
  }

  /** One item's own contribution, written into `dest`; false where reading it raises. */
  method ReadItem(it: Item, dest: Accumulator) returns (ok: bool)
    modifies dest
    ensures ok <==> Visit(it, old(dest.Snapshot())).Ok?
    ensures ok ==> dest.Snapshot() == Visit(it, old(dest.Snapshot())).value
  {
    ok := true;
    match it.concept {
      case EmptyCodeSequence =>
        ok := false;
      case NoConcept =>
      case Code(c) =>
        match it.measured {
          case UnreadableMeasurement =>
            ok := false;
          case NoMeasurement =>
          case Numeric(v) =>
            if c == DoseCode {
              dest.dose := v;
            } else if c == DapCode {
              dest.dap := v;
            } else if c == FluoroCode {
              dest.fluoro := dest.fluoro + v;
            }
        }
    }
  }

  /**
    `extrair_simples(items, dest)`: updates `dest` item by item and recurses into each
    item's ContentSequence. `ok` is false when reading an item raised, in which case
    `dest` holds whatever was written before.
   */
  method ExtractSimple(items: seq<Item>, dest: Accumulator) returns (ok: bool)
    modifies dest
    ensures ok <==> Walk(items, old(dest.Snapshot())).Ok?
    ensures ok ==> dest.Snapshot() == Walk(items, old(dest.Snapshot())).value
    decreases items
  {
    ghost var start := dest.Snapshot();
    var i := 0;
    while i < |items|
      invariant 0 <= i <= |items|
      invariant Walk(items, start) == Walk(items[i..], dest.Snapshot())
    {
      assert items[i..][0] == items[i] && items[i..][1..] == items[i + 1..];
      var it := items[i];
      assert it in items;
      ok := ReadItem(it, dest);
      if !ok {
        return;
      }
      ok := ExtractSimple(it.children, dest);
      if !ok {
        return;
      }
      i := i + 1;
    }
    assert items[i..] == [];
    ok := true;
  }

  // ----- the physician badge -----

  /** The whitespace-separated tokens of a person name once its carets are read as blanks. */
  function NameTokens(raw: string): seq<string>
  {
    Words(Strip(ReplaceChar(raw, '^', ' ')))
  }

  /** `ws[i]` is the first all-digit token. */
  predicate FirstBadgeAt(ws: seq<string>, i: int)
  {
    0 <= i < |ws| && IsDigits(ws[i]) && forall j :: 0 <= j < i ==> !IsDigits(ws[j])
  }

  /** No token is all digits. */
  predicate NoBadge(ws: seq<string>)
  {
    forall i :: 0 <= i < |ws| ==> !IsDigits(ws[i])
  }

  /** The first all-digit token, scanning left to right. */
  function FirstDigitToken(ws: seq<string>): (r: Option<string>)
    ensures r.None? <==> NoBadge(ws)
    ensures r.Some? ==> exists i :: FirstBadgeAt(ws, i) && ws[i] == r.value
  {
    if ws == [] then None
    else if IsDigits(ws[0]) then
      assert FirstBadgeAt(ws, 0);
      Some(ws[0])
    else
      var r := FirstDigitToken(ws[1..]);
      assert forall i :: 1 <= i < |ws| ==> ws[i] == ws[1..][i - 1];
      if r.Some? then
        var i :| FirstBadgeAt(ws[1..], i) && ws[1..][i] == r.value;
        assert FirstBadgeAt(ws, i + 1) && ws[i + 1] == r.value;
        r
      else r
  }

  /**
    `identificar_medico`: "N/A" for an empty name or the "N/A" placeholder; otherwise the
    first all-digit token of the name with carets read as blanks, or, when no token is
    all digits, the raw name exactly as given (carets kept).
   */
  function IdentifyPhysician(raw: string): (r: string)
    ensures raw == "" || raw == "N/A" ==> r == "N/A"
    ensures raw != "" && raw != "N/A" ==>
      || (exists i :: FirstBadgeAt(NameTokens(raw), i) && r == NameTokens(raw)[i])
      || (NoBadge(NameTokens(raw)) && r == raw)
  {
    if raw == "" || raw == "N/A" then "N/A"
    else
      var ws := NameTokens(raw);
      var found := FirstDigitToken(ws);
      if found.Some? then found.value else raw
  }

  /** A non-empty name component: no blanks and no caret. */
  predicate Component(c: string)
  {
    c != [] && NoSpace(c) && '^' !in c
  }

  /** Joined with blanks, non-empty blank-free components split back into themselves. */
  lemma {:induction false} WordsOfJoin(cs: seq<string>)
    requires |cs| >= 1 && forall i :: 0 <= i < |cs| ==> Component(cs[i])
    ensures Words(JoinWith(cs, ' ')) == cs
  {
    if |cs| == 1 {
      assert JoinWith(cs, ' ') == cs[0];
      WordsOfWord(cs[0]);
    } else {
      var tail := cs[1..];
      assert cs == [cs[0]] + tail;
      forall i | 0 <= i < |tail|
        ensures Component(tail[i])
      {
        assert tail[i] == cs[i + 1];
      }
      var rest := JoinWith(tail, ' ');
      WordsOfJoin(tail);
      assert Component(cs[0]);
      WordsCons(cs[0], rest);
      var j := JoinWith(cs, ' ');
      assert j == cs[0] + [' '] + rest;
      assert Words(j) == [cs[0]] + Words(rest);
      assert Words(rest) == tail;
      assert Words(j) == [cs[0]] + tail;
    }
  }

  lemma {:induction false} ReplaceJoin(cs: seq<string>)
    requires |cs| >= 1 && forall i :: 0 <= i < |cs| ==> Component(cs[i])
    ensures ReplaceChar(JoinWith(cs, '^'), '^', ' ') == JoinWith(cs, ' ')
  {
    if |cs| == 1 {
      assert ReplaceChar(cs[0], '^', ' ') == cs[0];
    } else {
      ReplaceJoin(cs[1..]);
      var a, b := cs[0], JoinWith(cs[1..], '^');
      assert ReplaceChar(a + ['^'] + b, '^', ' ') == ReplaceChar(a, '^', ' ') + [' '] + ReplaceChar(b, '^', ' ');
      assert ReplaceChar(a, '^', ' ') == a;
    }
  }

  lemma {:induction false} JoinEnds(cs: seq<string>, sep: char)
    requires |cs| >= 1 && forall i :: 0 <= i < |cs| ==> cs[i] != []
    ensures JoinWith(cs, sep) != []
    ensures JoinWith(cs, sep)[0] == cs[0][0]
    ensures JoinWith(cs, sep)[|JoinWith(cs, sep)| - 1] == cs[|cs| - 1][|cs[|cs| - 1]| - 1]
  {
    if |cs| > 1 {
      JoinEnds(cs[1..], sep);
    }
  }

  /**
    A DICOM person name whose components (separated by carets, section 6.2 of DICOM PS3.5)
    are non-empty and blank-free yields exactly those components as tokens.
   */
  lemma {:induction false} PersonNameTokens(cs: seq<string>)
    requires |cs| >= 1 && forall i :: 0 <= i < |cs| ==> Component(cs[i])
    ensures NameTokens(JoinWith(cs, '^')) == cs
  {
    ReplaceJoin(cs);
    JoinEnds(cs, ' ');
    StripTrimmed(JoinWith(cs, ' '));
    WordsOfJoin(cs);
  }

  /** For a well-formed person name the badge is its first all-digit component, or else the whole name. */
  lemma PhysicianOfComponents(cs: seq<string>)
    requires |cs| >= 1 && forall i :: 0 <= i < |cs| ==> Component(cs[i])
    requires JoinWith(cs, '^') != "N/A"
    ensures IdentifyPhysician(JoinWith(cs, '^')) == FirstDigitToken(cs).GetOr(JoinWith(cs, '^'))
  {
    PersonNameTokens(cs);
    JoinEnds(cs, '^');
  }

  /** The components of the name SMITH^JOHN^12345. */
  lemma ExampleName()
    ensures var cs := ["SMITH", "JOHN", "12345"];
      && (forall i :: 0 <= i < |cs| ==> Component(cs[i]))
      && JoinWith(cs, '^') == "SMITH^JOHN^12345"
      && FirstDigitToken(cs) == Some("12345")
  {
    var cs := ["SMITH", "JOHN", "12345"];
    assert Component(cs[0]) && Component(cs[1]) && Component(cs[2]);
    assert IsDigits(cs[2]);
    assert !IsDigits(cs[1]) by { assert !IsDigit(cs[1][0]); }
    assert !IsDigits(cs[0]) by { assert !IsDigit(cs[0][0]); }
    assert cs[1..][1..] == cs[2..] == ["12345"];
  }

  /** "SMITH^JOHN^12345" identifies physician "12345". */
  lemma BadgeFromPersonName(raw: string)
    requires raw == "SMITH^JOHN^12345"
    ensures IdentifyPhysician(raw) == "12345"
  {
    var cs := ["SMITH", "JOHN", "12345"];
    ExampleName();
    PhysicianOfComponents(cs);
  }

  // ----- normalising one document -----

  /** `str(ds.get("StudyDate", ""))` of eight characters becomes YYYY-MM-DD; any other length gives today. */
  function StudyDateIso(raw: string, today: string): (r: string)
    ensures |raw| == 8 ==> |r| == 10 && r[4] == '-' && r[7] == '-' && r[..4] + r[5..7] + r[8..] == raw
    ensures |raw| != 8 ==> r == today
  {
    if |raw| == 8 then
      var r := raw[0..4] + "-" + raw[4..6] + "-" + raw[6..8];
      assert r[..4] == raw[0..4] && r[5..7] == raw[4..6] && r[8..] == raw[6..8];
      assert raw == raw[0..4] + raw[4..6] + raw[6..8];
      r
    else today
  }

  /** A DICOM DA value naming a real day is stored as text the time series can read back. */
  lemma StudyDateReadable(raw: string, today: string)
    requires |raw| == 8 && AllDigits(raw)
    requires Calendar.Valid(Calendar.Date(Value(raw[..4]), Value(raw[4..6]), Value(raw[6..])))
    ensures Calendar.ParseIso(StudyDateIso(raw, today)) == Some(Calendar.Date(Value(raw[..4]), Value(raw[4..6]), Value(raw[6..])))
  {
    var r := StudyDateIso(raw, today);
    assert r[..4] == raw[..4] && r[5..7] == raw[4..6] && r[8..] == raw[6..];
  }

  /** `divmod(t, 60)` then `divmod(minutes, 60)`, each part truncated by `int()`. */
  function HmsFields(t: real): (f: (int, int, int))
    ensures 0 <= f.1 < 60 && 0 <= f.2 < 60
    ensures f.0 * 3600 + f.1 * 60 + f.2 == t.Floor
  {
    var minutes := (t / 60.0).Floor;
    var secs := t - 60.0 * minutes as real;
    assert 0.0 <= secs < 60.0;
    assert t.Floor == 60 * minutes + secs.Floor;
    (minutes / 60, minutes % 60, secs.Floor)
  }

  /** `"{:02d}".format(n)`: at least two characters, zero-padded; a negative number keeps its sign. */
  function Pad2(n: int): (s: string)
    ensures n >= 0 ==> |s| >= 2 && AllDigits(s) && Value(s) == n
    ensures 0 <= n < 100 ==> |s| == 2
  {
    if n >= 0 then
      var w := if Width(n) < 2 then 2 else Width(n);
      assert n < Pow10(w) by { PowGrows(Width(n), w); }
      ValueOfDigitsOf(n, w);
      assert n < 100 ==> Width(n) <= 2 by { WidthBound(n); }
      DigitsOf(n, w)
    else "-" + Decimal(-n)
  }

  lemma {:induction false} PowGrows(a: nat, b: nat)
    requires a <= b
    ensures Pow10(a) <= Pow10(b)
    decreases b - a
  {
    if a < b {
      PowGrows(a, b - 1);
    }
  }

  lemma WidthBound(n: nat)
    ensures n < 100 ==> Width(n) <= 2
  {
  }

  /** `tempo_fmt`: total seconds as HH:MM:SS. */
  function FormatDuration(t: real): string
  {
    var f := HmsFields(t);
    Pad2(f.0) + ":" + Pad2(f.1) + ":" + Pad2(f.2)
  }

  /** ASCII `str.upper()`; only the one-letter values matter below, and no other character upper-cases to F or M. */
  function Upper(s: string): (r: string)
    ensures |r| == |s|
    ensures forall i :: 0 <= i < |s| ==> r[i] == if 'a' <= s[i] <= 'z' then (s[i] as int - 32) as char else s[i]
  {
    if s == [] then [] else [if 'a' <= s[0] <= 'z' then (s[0] as int - 32) as char else s[0]] + Upper(s[1..])
  }

  /** PatientSex upper-cased and kept only when it is F or M; anything else is "NI". */
  function NormalizeSex(raw: string): (r: string)
    ensures r == "F" || r == "M" || r == "NI"
    ensures r == "F" <==> raw == "F" || raw == "f"
    ensures r == "M" <==> raw == "M" || raw == "m"
  {
    var u := Upper(raw);
    if u == "F" || u == "M" then u else "NI"
  }

  // ----- records and the batch -----

  /** The nine values handed to `inserir_exame`; dose in mGy and DAP in µGy·m², before rounding. */
  datatype ExamRecord = ExamRecord(
    date: string, physician: string, exam: string, doseMgy: real, duration: string,
    dapMicro: real, patientId: string, sex: string, room: string)

  /** The attributes the importer reads; `None` is an absent attribute. */
  datatype Dataset = Dataset(
    modality: Option<string>, physicianName: Option<string>, studyDate: Option<string>,
    content: seq<Item>, patientId: Option<string>, patientSex: Option<string>,
    admittingDiagnoses: Option<string>, studyDescription: Option<string>,
    manufacturer: Option<string>, deviceSerial: Option<string>)

  predicate IsSr(ds: Dataset)
  {
    ds.modality == Some("SR")
  }

  /** One file found by the directory walk: unreadable, or read, together with the reply `inserir_exame` gives. */
  datatype FileEntry = Unreadable | Parsed(ds: Dataset, stored: bool)

  /**
    Below 100 hours a formatted duration is the text HH:MM:SS: three two-digit fields
    whose h*3600 + m*60 + s is the whole number of seconds.
   */
  lemma DurationText(t: real)
    requires 0.0 <= t < 360000.0
    ensures var d := FormatDuration(t);
      && |d| == 8 && d[2] == ':' && d[5] == ':'
      && AllDigits(d[..2]) && AllDigits(d[3..5]) && AllDigits(d[6..])
      && Value(d[..2]) * 3600 + Value(d[3..5]) * 60 + Value(d[6..]) == t.Floor
  {
    var f := HmsFields(t);
    assert f.0 < 100;
    var a, b, c := Pad2(f.0), Pad2(f.1), Pad2(f.2);
    var d := a + ":" + b + ":" + c;
    assert d[..2] == a && d[3..5] == b && d[6..] == c;
  }

  /** `data_formatada`: an eight-character StudyDate re-cut as YYYY-MM-DD, any other length today. */
  function StudyDay(ds: Dataset, today: string): (d: string)
    ensures |ds.studyDate.GetOr("")| == 8 ==>
      && |d| == 10 && d[4] == '-' && d[7] == '-'
      && d[..4] + d[5..7] + d[8..] == ds.studyDate.value
    ensures |ds.studyDate.GetOr("")| != 8 ==> d == today
  {
    StudyDateIso(ds.studyDate.GetOr(""), today)
  }

  /** `medico_id`: "N/A" when absent, else the first badge of the name, else the name itself. */
  function PhysicianOf(ds: Dataset): (p: string)
    ensures ds.physicianName.None? ==> p == "N/A"
    ensures ds.physicianName.Some? ==> var raw := ds.physicianName.value;
      if raw == "" || raw == "N/A" then p == "N/A"
      else
        || (exists i :: FirstBadgeAt(NameTokens(raw), i) && p == NameTokens(raw)[i])
        || (NoBadge(NameTokens(raw)) && p == raw)
  {
    IdentifyPhysician(ds.physicianName.GetOr("N/A"))
  }

  /** `exame_nome`: the admitting diagnoses, else the study description, else "NI". */
  function ExamName(ds: Dataset): (e: string)
    ensures ds.admittingDiagnoses.Some? ==> e == ds.admittingDiagnoses.value
    ensures ds.admittingDiagnoses.None? && ds.studyDescription.Some? ==> e == ds.studyDescription.value
    ensures ds.admittingDiagnoses.None? && ds.studyDescription.None? ==> e == "NI"
  {
    ds.admittingDiagnoses.GetOr(ds.studyDescription.GetOr("NI"))
  }

  /** `sexo`: F or M from either case of the attribute; NI for anything else, an absent one included. */
  function SexOf(ds: Dataset): (x: string)
    ensures x == "F" || x == "M" || x == "NI"
    ensures x == "F" <==> ds.patientSex == Some("F") || ds.patientSex == Some("f")
    ensures x == "M" <==> ds.patientSex == Some("M") || ds.patientSex == Some("m")
  {
    assert "NI" != "F" && "NI" != "f" && "NI" != "M" && "NI" != "m";
    NormalizeSex(ds.patientSex.GetOr("NI"))
  }

  /**
    The record built from an SR document once its content walk produced `m`, each
    field normalised as the importer normalises it.
   */
  function RecordOf(ds: Dataset, today: string, m: Metrics): (r: ExamRecord)
    // StudyDate: eight characters are re-cut as YYYY-MM-DD; any other length gives today
    ensures |ds.studyDate.GetOr("")| == 8 ==>
      && |r.date| == 10 && r.date[4] == '-' && r.date[7] == '-'
      && r.date[..4] + r.date[5..7] + r.date[8..] == ds.studyDate.value
    ensures |ds.studyDate.GetOr("")| != 8 ==> r.date == today
    // the physician: "N/A" when absent, else the first badge of the name, else the name itself
    ensures ds.physicianName.None? ==> r.physician == "N/A"
    ensures ds.physicianName.Some? ==> var raw := ds.physicianName.value;
      if raw == "" || raw == "N/A" then r.physician == "N/A"
      else
        || (exists i :: FirstBadgeAt(NameTokens(raw), i) && r.physician == NameTokens(raw)[i])
        || (NoBadge(NameTokens(raw)) && r.physician == raw)
    // the exam: the admitting diagnoses, else the study description, else "NI"
    ensures ds.admittingDiagnoses.Some? ==> r.exam == ds.admittingDiagnoses.value
    ensures ds.admittingDiagnoses.None? && ds.studyDescription.Some? ==> r.exam == ds.studyDescription.value
    ensures ds.admittingDiagnoses.None? && ds.studyDescription.None? ==> r.exam == "NI"
    ensures ds.patientId.None? ==> r.patientId == "0"
    ensures ds.patientId.Some? ==> r.patientId == ds.patientId.value
    ensures r.sex == "F" || r.sex == "M" || r.sex == "NI"
    ensures r.sex == "F" <==> ds.patientSex == Some("F") || ds.patientSex == Some("f")
    ensures r.sex == "M" <==> ds.patientSex == Some("M") || ds.patientSex == Some("m")
    ensures r.room == ds.manufacturer.GetOr("Desconhecido") + "-" + ds.deviceSerial.GetOr("")
    // the duration: HH:MM:SS denoting the whole seconds of fluoroscopy
    ensures 0.0 <= m.fluoro < 360000.0 ==>
      && |r.duration| == 8 && r.duration[2] == ':' && r.duration[5] == ':'
      && AllDigits(r.duration[..2]) && AllDigits(r.duration[3..5]) && AllDigits(r.duration[6..])
      && Value(r.duration[..2]) * 3600 + Value(r.duration[3..5]) * 60 + Value(r.duration[6..]) == m.fluoro.Floor
    // Gy to mGy and Gy·m² to µGy·m²
    ensures r.doseMgy == m.dose * 1000.0 && r.dapMicro == m.dap * 1000000.0
  {
    var duration := FormatDuration(m.fluoro);
    if 0.0 <= m.fluoro < 360000.0 then
      DurationText(m.fluoro);
      RecordFields(ds, today, m, duration)
    else RecordFields(ds, today, m, duration)
  }

  /** The nine fields, in the order `inserir_exame` takes them. */
  function RecordFields(ds: Dataset, today: string, m: Metrics, duration: string): ExamRecord
  {
    ExamRecord(
      StudyDay(ds, today), PhysicianOf(ds), ExamName(ds), m.dose * 1000.0, duration,
      m.dap * 1000000.0, ds.patientId.GetOr("0"), SexOf(ds),
      ds.manufacturer.GetOr("Desconhecido") + "-" + ds.deviceSerial.GetOr(""))
  }

  /** What happens to one file. */
  datatype FileKind = Skipped | Failed | Stored | Rejected

  function Kind(f: FileEntry): FileKind
  {
    match f
    case Unreadable => Failed
    case Parsed(ds, stored) =>
      if !IsSr(ds) then Skipped
      else if Walk(ds.content, ZeroMetrics).Raised? then Failed
      else if stored then Stored
      else Rejected
  }

  /** The number of files of kind `k`. */
  function CountKind(files: seq<FileEntry>, k: FileKind): nat
  {
    if files == [] then 0 else CountKind(files[..|files| - 1], k) + (if Kind(files[|files| - 1]) == k then 1 else 0)
  }

  function CountStored(files: seq<FileEntry>): nat
  {
    CountKind(files, Stored)
  }

  /** Unreadable files, content trees that raise and rejected inserts. */
  function CountErrors(files: seq<FileEntry>): nat
  {
    CountKind(files, Failed) + CountKind(files, Rejected)
  }

  /** The records offered to the store, in the order the files are met. */
  function Submitted(files: seq<FileEntry>, today: string): seq<ExamRecord>
  {
    if files == [] then []
    else
      var f := files[|files| - 1];
      Submitted(files[..|files| - 1], today)
        + (if Kind(f) == Stored || Kind(f) == Rejected then [RecordOf(f.ds, today, Walk(f.ds.content, ZeroMetrics).value)] else [])
  }

  /**
    `processar_diretorio_dicom`: walks the files once; a stored SR record counts as a
    success, a rejected insert, an unreadable file or a content tree that raises counts as
    an error, and a document that is not an SR counts as neither.
   */
  method ProcessDirectory(files: seq<FileEntry>, today: string) returns (processed: nat, errors: nat, submitted: seq<ExamRecord>)
    ensures processed == CountStored(files)
    ensures errors == CountErrors(files)
    ensures submitted == Submitted(files, today)
  {
    processed, errors, submitted := 0, 0, [];
    for k := 0 to |files|
      invariant processed == CountStored(files[..k])
      invariant errors == CountErrors(files[..k])
      invariant submitted == Submitted(files[..k], today)
    {
      assert files[..k + 1][..k] == files[..k];
      var kind, offered := ProcessFile(files[k], today);
      submitted := submitted + offered;
      if kind == Stored {
        processed := processed + 1;
      } else if kind == Failed || kind == Rejected {
        errors := errors + 1;
      }
    }
    assert files[..|files|] == files;
  }

  /** The body of the walk for one file: what happens to it, and the record offered to the store if any. */
  method ProcessFile(f: FileEntry, today: string) returns (kind: FileKind, offered: seq<ExamRecord>)
    ensures kind == Kind(f)
    ensures kind == Stored || kind == Rejected ==> offered == [RecordOf(f.ds, today, Walk(f.ds.content, ZeroMetrics).value)]
    ensures kind == Skipped || kind == Failed ==> offered == []
  {
    offered := [];
    match f {
      case Unreadable =>
        kind := Failed;
      case Parsed(ds, stored) =>
        kind := Skipped;
        if ds.modality == Some("SR") {
          var metrics := new Accumulator();
          var ok := ExtractSimple(ds.content, metrics);
          if !ok {
            kind := Failed;
          } else {
            var record := RecordOf(ds, today, metrics.Snapshot());
            offered := [record];
            kind := if stored then Stored else Rejected;
          }
        }
    }
  }

  /** Every file is a success, an error or skipped, and exactly the successes and rejections reach the store. */
  lemma {:induction false} BatchAccounting(files: seq<FileEntry>, today: string)
    ensures CountStored(files) + CountErrors(files) + CountKind(files, Skipped) == |files|
    ensures |Submitted(files, today)| == CountStored(files) + CountKind(files, Rejected)
  {
    if files != [] {
      BatchAccounting(files[..|files| - 1], today);
    }
  }

  /** Counts over two runs of files add up: each file is counted on its own. */
  lemma {:induction false} CountsConcat(xs: seq<FileEntry>, ys: seq<FileEntry>, k: FileKind)
    ensures CountKind(xs + ys, k) == CountKind(xs, k) + CountKind(ys, k)
    decreases |ys|
  {
    if ys == [] {
      assert xs + ys == xs;
    } else {
      var init := ys[..|ys| - 1];
      CountsConcat(xs, init, k);
      assert (xs + ys)[..|xs + ys| - 1] == xs + init;
      assert (xs + ys)[|xs + ys| - 1] == ys[|ys| - 1];
    }
  }

  /** Three good SR files, one file of another modality and one unreadable file count as 3 successes and 1 error. */
  lemma MixedBatch(a: Dataset, b: Dataset, c: Dataset, other: Dataset)
    requires IsSr(a) && IsSr(b) && IsSr(c) && !IsSr(other)
    requires Walk(a.content, ZeroMetrics).Ok? && Walk(b.content, ZeroMetrics).Ok? && Walk(c.content, ZeroMetrics).Ok?
    ensures var files := [Parsed(a, true), Parsed(other, true), Parsed(b, true), Unreadable, Parsed(c, true)];
      CountStored(files) == 3 && CountErrors(files) == 1
  {
    var files := [Parsed(a, true), Parsed(other, true), Parsed(b, true), Unreadable, Parsed(c, true)];
    assert Kind(files[0]) == Kind(files[2]) == Kind(files[4]) == Stored;
    assert Kind(files[1]) == Skipped && Kind(files[3]) == Failed;
    var p1, p2, p3, p4 := files[..1], files[..2], files[..3], files[..4];
    assert p1[..0] == [] && p2[..1] == p1 && p3[..2] == p2 && p4[..3] == p3 && files[..4] == p4;
    assert p1[0] == files[0] && p2[1] == files[1] && p3[2] == files[2] && p4[3] == files[3];
    assert CountKind(p1, Stored) == 1 && CountKind(p1, Failed) == 0 && CountKind(p1, Rejected) == 0;
    assert CountKind(p2, Stored) == 1 && CountKind(p2, Failed) == 0 && CountKind(p2, Rejected) == 0;
    assert CountKind(p3, Stored) == 2 && CountKind(p3, Failed) == 0 && CountKind(p3, Rejected) == 0;
    assert CountKind(p4, Stored) == 2 && CountKind(p4, Failed) == 1 && CountKind(p4, Rejected) == 0;
  }
}
