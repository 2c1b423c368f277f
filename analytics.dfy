/**
  The time series and the grouped statistics of core/analytics.py.

  `calcular_evolucao_temporal` receives the grouped daily counts of the filtered
  exams and densifies them: every calendar day from the earliest to the latest
  grouped day appears, zero-filled, and in multi-physician mode every
  (day, physician) pair appears. The SQL grouping itself runs inside SQLite and is
  an input here (`Result` of the fetch: the rows, or the exception it raised).
 */
module Analytics {
  import opened Wrappers
  import opened Text
  import opened Calendar
  import opened Filters
  import opened Display
  import DicomParser

  /** `n_medico and ";" in str(n_medico)`: several physicians were asked for. */
  predicate MultiMode(physician: Option<string>)
    ensures MultiMode(physician) <==> physician.Some? && ';' in physician.value
  {
    Truthy(physician) && ';' in physician.value
  }

  /**
    One grouped row: `date(data)`, the physician (multi mode only; empty otherwise) and `COUNT(*)`.
    A NULL `date(data)`, which SQLite gives for a stored date that names no calendar day, is the empty text.
   */
  datatype Row = Row(day: string, physician: string, count: int)

  /** One point of the densified series. */
  datatype Point =
    | DayPoint(day: string, count: int)
    | DayPhysicianPoint(day: string, physician: string, count: int)

  function Days(rows: seq<Row>): (days: seq<string>)
    ensures |days| == |rows| && forall i :: 0 <= i < |rows| ==> days[i] == rows[i].day
  {
    if rows == [] then [] else Days(rows[..|rows| - 1]) + [rows[|rows| - 1].day]
  }

  /** `{r[0]: r[1] for r in res}`: day to count, a later row replacing an earlier one. */
  function CountsOf(rows: seq<Row>): map<string, int>
  {
    if rows == [] then map[]
    else CountsOf(rows[..|rows| - 1])[rows[|rows| - 1].day := rows[|rows| - 1].count]
  }

  /** The day-to-count dictionary of one physician, filled from the rows in order. */
  function CountsFor(rows: seq<Row>, p: string): map<string, int>
  {
    if rows == [] then map[]
    else
      var m := CountsFor(rows[..|rows| - 1], p);
      var r := rows[|rows| - 1];
      if r.physician == p then m[r.day := r.count] else m
  }

  /** `dict.get(d, 0)`. */
  function Get(m: map<string, int>, d: string): int
  {
    if d in m then m[d] else 0
  }

  predicate Distinct<T(==)>(xs: seq<T>)
  {
    forall i, j :: 0 <= i < j < |xs| ==> xs[i] != xs[j]
  }

  ghost predicate HasPhysician(rows: seq<Row>, p: string)
  {
    exists r :: r in rows && r.physician == p
  }

  /** `list(set([r[1] for r in res]))`: each physician of the rows once, in some order. */
  ghost predicate Enumerates(ps: seq<string>, rows: seq<Row>)
  {
    Distinct(ps) && forall p :: p in ps <==> HasPhysician(rows, p)
  }

  // ----- the date axis -----

  /** The first and last grouped day as dates: `strptime` of `min(datas)` and `max(datas)`; None when either raises. */
  function Span(rows: seq<Row>): (r: Option<(Date, Date)>)
    requires rows != []
    ensures r.Some? ==> Valid(r.value.0) && Valid(r.value.1) && r.value.1.year <= 9999
  {
    var days := Days(rows);
    match (ParseIso(MinLex(days)), ParseIso(MaxLex(days)))
    case (Some(d0), Some(d1)) => Some((d0, d1))
    case _ => None
  }

  /** A NULL day among the rows (where `min(datas)` raises on None) leaves no span, so the series is `([], False)`. */
  lemma NullDayNoSpan(rows: seq<Row>, i: nat)
    requires i < |rows| && rows[i].day == ""
    ensures Span(rows).None?
  {
    var days := Days(rows);
    assert days[i] in days;
    assert MinLex(days) == "";
  }

  /** The parsed span is the earliest and the latest grouped day, in calendar order. */
  lemma SpanEnds(rows: seq<Row>)
    requires rows != [] && Span(rows).Some?
    ensures Format(Span(rows).value.0) == MinLex(Days(rows)) && Format(Span(rows).value.1) == MaxLex(Days(rows))
    ensures DayNumber(Span(rows).value.0) <= DayNumber(Span(rows).value.1)
  {
    var days := Days(rows);
    FormatParseIso(MinLex(days));
    FormatParseIso(MaxLex(days));
    FormatOrder(Span(rows).value.0, Span(rows).value.1);
  }

  /** `len(range((d1 - d0).days + 1))`. */
  function AxisLength(d0: Date, d1: Date): nat
    requires Valid(d0) && Valid(d1)
  {
    var delta := DayNumber(d1) - DayNumber(d0);
    if delta + 1 > 0 then delta + 1 else 0
  }

  /** The day axis of a grouped result: every day from its first to its last grouped day. */
  function SpanAxis(rows: seq<Row>): seq<string>
    requires rows != [] && Span(rows).Some?
  {
    Axis(Span(rows).value.0, AxisLength(Span(rows).value.0, Span(rows).value.1))
  }

  /** The first `n` days from `d0`, written YYYY-MM-DD. */
  function Axis(d0: Date, n: nat): (days: seq<string>)
    requires Valid(d0)
    ensures |days| == n
  {
    if n == 0 then [] else Axis(d0, n - 1) + [Format(AddDays(d0, n - 1))]
  }

  /** The loop that appends `(d_inicio + timedelta(days=i)).strftime("%Y-%m-%d")` for each `i` in `range(delta.days + 1)`. */
  method DateAxis(d0: Date, d1: Date) returns (days: seq<string>)
    requires Valid(d0) && Valid(d1)
    ensures days == Axis(d0, AxisLength(d0, d1))
  {
    var count := AxisLength(d0, d1);
    days := [];
    for i := 0 to count
      invariant days == Axis(d0, i)
    {
      var day := AddDays(d0, i);
      days := days + [Format(day)];
    }
  }

  lemma {:induction false} AxisIndex(d0: Date, n: nat)
    requires Valid(d0)
    ensures |Axis(d0, n)| == n
    ensures forall i :: 0 <= i < n ==> Axis(d0, n)[i] == Format(AddDays(d0, i))
  {
    if n > 0 {
      AxisIndex(d0, n - 1);
    }
  }

  /** A date no later than a date of year 9999 or earlier has a year of 9999 or earlier. */
  lemma YearBound(a: Date, b: Date)
    requires Valid(a) && Valid(b) && b.year <= 9999 && DayNumber(a) <= DayNumber(b)
    ensures a.year <= 9999
  {
    if a.year > b.year {
      DayNumberMonotone(b, a);
    }
  }

  /** Two axis days, the later no later than a date of year 9999 or earlier, are distinct and in text order. */
  lemma AxisPair(d0: Date, last: Date, i: nat, j: nat)
    requires Valid(d0) && Valid(last) && last.year <= 9999
    requires i < j && DayNumber(d0) + j <= DayNumber(last)
    ensures Format(AddDays(d0, i)) != Format(AddDays(d0, j))
    ensures LexLe(Format(AddDays(d0, i)), Format(AddDays(d0, j)))
  {
    var a, b := AddDays(d0, i), AddDays(d0, j);
    AddDaysNumber(d0, i);
    AddDaysNumber(d0, j);
    YearBound(a, last);
    YearBound(b, last);
    FormatOrder(a, b);
    ParseIsoFormat(a);
    ParseIsoFormat(b);
  }

  /** The days on the axis are strictly ascending: distinct, and in text order, which is calendar order. */
  lemma AxisAscending(d0: Date, d1: Date)
    requires Valid(d0) && Valid(d1) && d1.year <= 9999 && DayNumber(d0) <= DayNumber(d1)
    ensures var axis := Axis(d0, AxisLength(d0, d1));
      forall i, j :: 0 <= i < j < |axis| ==> axis[i] != axis[j] && LexLe(axis[i], axis[j])
  {
    var n := AxisLength(d0, d1);
    AxisIndex(d0, n);
    forall i, j | 0 <= i < j < n
      ensures Format(AddDays(d0, i)) != Format(AddDays(d0, j)) && LexLe(Format(AddDays(d0, i)), Format(AddDays(d0, j)))
    {
      AxisPair(d0, d1, i, j);
    }
  }

  /** Every calendar day of the span is on the axis, at its distance from the first day. */
  lemma AxisCovers(d0: Date, n: nat, d: Date)
    requires Valid(d0) && Valid(d) && DayNumber(d0) <= DayNumber(d) < DayNumber(d0) + n
    ensures |Axis(d0, n)| == n && Axis(d0, n)[DayNumber(d) - DayNumber(d0)] == Format(d)
  {
    var k := DayNumber(d) - DayNumber(d0);
    AxisIndex(d0, n);
    AddDaysNumber(d0, k);
    DayNumberInjective(AddDays(d0, k), d);
  }

  /** A grouped day that is a date lies between the first and the last grouped day, so on the axis. */
  lemma RowOnAxis(rows: seq<Row>, i: nat)
    requires i < |rows| && Span(rows).Some? && ParseIso(rows[i].day).Some?
    ensures rows[i].day in SpanAxis(rows)
  {
    var d0, d1 := Span(rows).value.0, Span(rows).value.1;
    var n := AxisLength(d0, d1);
    var d := ParseIso(rows[i].day).value;
    assert Format(d) == rows[i].day by {
      FormatParseIso(rows[i].day);
    }
    assert DayNumber(d0) <= DayNumber(d) <= DayNumber(d1) by {
      SpanEnds(rows);
      assert Days(rows)[i] == rows[i].day;
      FormatOrder(d0, d);
      FormatOrder(d, d1);
    }
    AxisCovers(d0, n, d);
    var axis := Axis(d0, n);
    assert axis[DayNumber(d) - DayNumber(d0)] == rows[i].day;
    assert axis == SpanAxis(rows);
  }

  /**
    The axis of a grouped result starts at its earliest day and ends at its latest, and
    every grouped day that is a date lies on it.
   */
  lemma AxisSpansRows(rows: seq<Row>)
    requires rows != [] && Span(rows).Some?
    ensures var axis := SpanAxis(rows);
      |axis| > 0 && axis[0] == MinLex(Days(rows)) && axis[|axis| - 1] == MaxLex(Days(rows))
      && forall r :: r in rows && ParseIso(r.day).Some? ==> r.day in axis
  {
    var d0, d1 := Span(rows).value.0, Span(rows).value.1;
    SpanEnds(rows);
    var n := AxisLength(d0, d1);
    AxisCovers(d0, n, d0);
    AxisCovers(d0, n, d1);
    forall r | r in rows && ParseIso(r.day).Some?
      ensures r.day in Axis(d0, n)
    {
      var i :| 0 <= i < |rows| && rows[i] == r;
      RowOnAxis(rows, i);
    }
  }

  // ----- single mode -----

  /** One point per axis day: the grouped count of that day, or 0. */
  function SingleFill(axis: seq<string>, counts: map<string, int>): seq<Point>
  {
    if axis == [] then []
    else SingleFill(axis[..|axis| - 1], counts) + [DayPoint(axis[|axis| - 1], Get(counts, axis[|axis| - 1]))]
  }

  lemma {:induction false} SingleFillIndex(axis: seq<string>, counts: map<string, int>)
    ensures |SingleFill(axis, counts)| == |axis|
    ensures forall i :: 0 <= i < |axis| ==> SingleFill(axis, counts)[i] == DayPoint(axis[i], Get(counts, axis[i]))
  {
    if axis != [] {
      SingleFillIndex(axis[..|axis| - 1], counts);
    }
  }

  /** The dictionary comprehension over the rows, then one appended point per axis day. */
  method FillSingle(rows: seq<Row>, axis: seq<string>) returns (out: seq<Point>)
    ensures out == SingleFill(axis, CountsOf(rows))
  {
    var counts: map<string, int> := map[];
    for k := 0 to |rows|
      invariant counts == CountsOf(rows[..k])
    {
      assert rows[..k + 1][..k] == rows[..k];
      counts := counts[rows[k].day := rows[k].count];
    }
    assert rows[..|rows|] == rows;
    out := [];
    for i := 0 to |axis|
      invariant out == SingleFill(axis[..i], counts)
    {
      assert axis[..i + 1][..i] == axis[..i];
      out := out + [DayPoint(axis[i], Get(counts, axis[i]))];
    }
    assert axis[..|axis|] == axis;
  }

  /** A later row for the same day replaces the earlier one; with distinct days each row's count is kept. */
  lemma {:induction false} CountsOfDistinct(rows: seq<Row>, i: nat)
    requires i < |rows| && forall j :: i < j < |rows| ==> rows[j].day != rows[i].day
    ensures rows[i].day in CountsOf(rows) && CountsOf(rows)[rows[i].day] == rows[i].count
  {
    if i < |rows| - 1 {
      CountsOfDistinct(rows[..|rows| - 1], i);
    }
  }

  /** Single mode reproduces every grouped row whose day is a date, when the days are distinct (as GROUP BY makes them). */
  lemma SingleKeepsRows(rows: seq<Row>)
    requires rows != [] && Span(rows).Some?
    requires Distinct(Days(rows))
    ensures forall r :: r in rows && ParseIso(r.day).Some? ==> DayPoint(r.day, r.count) in SingleFill(SpanAxis(rows), CountsOf(rows))
  {
    var axis := SpanAxis(rows);
    forall r | r in rows && ParseIso(r.day).Some?
      ensures DayPoint(r.day, r.count) in SingleFill(axis, CountsOf(rows))
    {
      var i :| 0 <= i < |rows| && rows[i] == r;
      RowOnAxis(rows, i);
      RowKept(rows, i, axis);
    }
  }

  /** A row whose day is on the axis and occurs in no other row appears as a point. */
  lemma RowKept(rows: seq<Row>, i: nat, axis: seq<string>)
    requires i < |rows| && Distinct(Days(rows)) && rows[i].day in axis
    ensures DayPoint(rows[i].day, rows[i].count) in SingleFill(axis, CountsOf(rows))
  {
    var days := Days(rows);
    assert forall j :: i < j < |rows| ==> days[j] != days[i];
    CountsOfDistinct(rows, i);
    SingleFillIndex(axis, CountsOf(rows));
    var k :| 0 <= k < |axis| && axis[k] == rows[i].day;
    assert SingleFill(axis, CountsOf(rows))[k] == DayPoint(rows[i].day, rows[i].count);
  }

  // ----- multi mode -----

  /** The points of one day: one per physician, in the given order, each with that physician's count or 0. */
  function DayBlock(d: string, ps: seq<string>, rows: seq<Row>): seq<Point>
  {
    if ps == [] then []
    else DayBlock(d, ps[..|ps| - 1], rows) + [DayPhysicianPoint(d, ps[|ps| - 1], Get(CountsFor(rows, ps[|ps| - 1]), d))]
  }

  /** Day-major: the blocks of the axis days, in axis order. */
  function MultiFill(axis: seq<string>, ps: seq<string>, rows: seq<Row>): seq<Point>
  {
    if axis == [] then [] else MultiFill(axis[..|axis| - 1], ps, rows) + DayBlock(axis[|axis| - 1], ps, rows)
  }

  lemma {:induction false} DayBlockIndex(d: string, ps: seq<string>, rows: seq<Row>)
    ensures |DayBlock(d, ps, rows)| == |ps|
    ensures forall j :: 0 <= j < |ps| ==> DayBlock(d, ps, rows)[j] == DayPhysicianPoint(d, ps[j], Get(CountsFor(rows, ps[j]), d))
  {
    if ps != [] {
      DayBlockIndex(d, ps[..|ps| - 1], rows);
    }
  }

  lemma {:induction false} MultiFillLength(axis: seq<string>, ps: seq<string>, rows: seq<Row>)
    ensures |MultiFill(axis, ps, rows)| == |axis| * |ps|
  {
    if axis != [] {
      MultiFillLength(axis[..|axis| - 1], ps, rows);
      DayBlockIndex(axis[|axis| - 1], ps, rows);
      assert |axis| * |ps| == (|axis| - 1) * |ps| + |ps|;
    }
  }

  /** Point `i * len(medicos) + j` is day `i` with physician `j`. */
  lemma {:induction false} MultiFillAt(axis: seq<string>, ps: seq<string>, rows: seq<Row>, i: nat, j: nat)
    requires i < |axis| && j < |ps|
    ensures i * |ps| + j < |MultiFill(axis, ps, rows)|
    ensures MultiFill(axis, ps, rows)[i * |ps| + j] == DayPhysicianPoint(axis[i], ps[j], Get(CountsFor(rows, ps[j]), axis[i]))
  {
    var n := |axis| - 1;
    var init := axis[..n];
    assert MultiFill(axis, ps, rows) == MultiFill(init, ps, rows) + DayBlock(axis[n], ps, rows);
    MultiFillLength(init, ps, rows);
    DayBlockIndex(axis[n], ps, rows);
    if i < n {
      MultiFillAt(init, ps, rows, i, j);
      assert init[i] == axis[i];
      EarlierBlock(MultiFill(init, ps, rows), DayBlock(axis[n], ps, rows), i, n, j, |ps|);
    } else {
      LastBlock(MultiFill(init, ps, rows), DayBlock(axis[n], ps, rows), n, j, |ps|);
    }
  }

  /** An index inside one of the first `n` blocks of width `p` lands in the prefix. */
  lemma EarlierBlock(a: seq<Point>, b: seq<Point>, i: nat, n: nat, j: nat, p: nat)
    requires |a| == n * p && i < n && j < p
    ensures i * p + j < |a| && (a + b)[i * p + j] == a[i * p + j]
  {
    HeavierDigitWins(i, n, j, 0, p);
  }

  /** Index `n * p + j` of `n` blocks of width `p` followed by one more is index `j` of the last. */
  lemma LastBlock(a: seq<Point>, b: seq<Point>, n: nat, j: nat, p: nat)
    requires |a| == n * p && j < |b|
    ensures (a + b)[n * p + j] == b[j]
  {
  }

  /** `len(axis) * len(medicos)` points; point `i * len(medicos) + j` is day `i` with physician `j`. */
  lemma MultiFillIndex(axis: seq<string>, ps: seq<string>, rows: seq<Row>)
    ensures |MultiFill(axis, ps, rows)| == |axis| * |ps|
    ensures forall i, j :: 0 <= i < |axis| && 0 <= j < |ps| ==>
      i * |ps| + j < |MultiFill(axis, ps, rows)| &&
      MultiFill(axis, ps, rows)[i * |ps| + j] == DayPhysicianPoint(axis[i], ps[j], Get(CountsFor(rows, ps[j]), axis[i]))
  {
    MultiFillLength(axis, ps, rows);
    forall i, j | 0 <= i < |axis| && 0 <= j < |ps|
      ensures i * |ps| + j < |MultiFill(axis, ps, rows)|
      ensures MultiFill(axis, ps, rows)[i * |ps| + j] == DayPhysicianPoint(axis[i], ps[j], Get(CountsFor(rows, ps[j]), axis[i]))
    {
      MultiFillAt(axis, ps, rows, i, j);
    }
  }

  /** The (day, physician) a point is about. */
  function Key(p: Point): (string, string)
  {
    match p
    case DayPoint(d, _) => (d, "")
    case DayPhysicianPoint(d, m, _) => (d, m)
  }

  /** With distinct days and distinct physicians, each (day, physician) pair occurs once. */
  lemma {:induction false} MultiFillPairsOnce(axis: seq<string>, ps: seq<string>, rows: seq<Row>)
    requires Distinct(axis) && Distinct(ps)
    ensures forall k :: 0 <= k < |MultiFill(axis, ps, rows)| ==> MultiFill(axis, ps, rows)[k].day in axis
    ensures forall k1, k2 :: 0 <= k1 < k2 < |MultiFill(axis, ps, rows)| ==>
      Key(MultiFill(axis, ps, rows)[k1]) != Key(MultiFill(axis, ps, rows)[k2])
  {
    if axis != [] {
      var init := axis[..|axis| - 1];
      var d := axis[|axis| - 1];
      assert Distinct(init);
      MultiFillPairsOnce(init, ps, rows);
      DayBlockIndex(d, ps, rows);
      var a, b := MultiFill(init, ps, rows), DayBlock(d, ps, rows);
      var out := MultiFill(axis, ps, rows);
      assert out == a + b;
      assert d !in init;
      forall k1, k2 | 0 <= k1 < k2 < |out|
        ensures Key(out[k1]) != Key(out[k2])
      {
        if k2 < |a| {
          assert out[k1] == a[k1] && out[k2] == a[k2];
        } else if k1 < |a| {
          assert out[k1] == a[k1] && out[k2] == b[k2 - |a|];
          assert a[k1].day in init;
          assert Key(out[k1]).0 != Key(out[k2]).0;
        } else {
          var j1, j2 := k1 - |a|, k2 - |a|;
          assert out[k1] == b[j1] && out[k2] == b[j2];
          assert ps[j1] != ps[j2];
          assert Key(out[k1]).1 != Key(out[k2]).1;
        }
      }
      forall k | 0 <= k < |out|
        ensures out[k].day in axis
      {
        if k < |a| {
          assert out[k] == a[k];
          assert a[k].day in init;
        } else {
          assert out[k] == b[k - |a|];
        }
      }
    }
  }

  /** `list(set(...))`: the physicians of the rows, each once, in order of first appearance. */
  method DistinctPhysicians(rows: seq<Row>) returns (ps: seq<string>)
    ensures Enumerates(ps, rows)
  {
    ps := [];
    for k := 0 to |rows|
      invariant Distinct(ps)
      invariant forall p :: p in ps <==> HasPhysician(rows[..k], p)
    {
      assert rows[..k + 1] == rows[..k] + [rows[k]];
      if rows[k].physician !in ps {
        ps := ps + [rows[k].physician];
      }
    }
    assert rows[..|rows|] == rows;
  }

  /** The per-physician dictionaries, then for each day one point per physician. */
  method FillMulti(rows: seq<Row>, axis: seq<string>) returns (out: seq<Point>, ps: seq<string>)
    ensures Enumerates(ps, rows)
    ensures out == MultiFill(axis, ps, rows)
  {
    ps := DistinctPhysicians(rows);
    var byPhysician: map<string, map<string, int>> := map p | p in ps :: map[];
    for k := 0 to |rows|
      invariant forall p :: p in byPhysician <==> p in ps
      invariant forall p :: p in byPhysician ==> byPhysician[p] == CountsFor(rows[..k], p)
    {
      assert rows[..k + 1][..k] == rows[..k];
      var r := rows[k];
      assert r in rows;
      byPhysician := byPhysician[r.physician := byPhysician[r.physician][r.day := r.count]];
    }
    assert rows[..|rows|] == rows;
    out := [];
    for i := 0 to |axis|
      invariant out == MultiFill(axis[..i], ps, rows)
    {
      assert axis[..i + 1][..i] == axis[..i];
      for j := 0 to |ps|
        invariant out == MultiFill(axis[..i], ps, rows) + DayBlock(axis[i], ps[..j], rows)
      {
        assert ps[..j + 1][..j] == ps[..j];
        out := out + [DayPhysicianPoint(axis[i], ps[j], Get(byPhysician[ps[j]], axis[i]))];
      }
      assert ps[..|ps|] == ps;
    }
    assert axis[..|axis|] == axis;
  }

  // ----- calcular_evolucao_temporal -----

  /**
    `calcular_evolucao_temporal`: the densified series and the mode flag. No connection
    gives no points and the mode; a raising query or an unparseable first or last day
    gives no points and mode off; an empty result gives no points and the mode.
   */
  method TimeSeries(physician: Option<string>, connected: bool, fetched: Result<seq<Row>>)
    returns (series: seq<Point>, multi: bool)
    ensures !connected ==> series == [] && multi == MultiMode(physician)
    ensures connected && fetched.Raised? ==> series == [] && !multi
    ensures connected && fetched.Ok? && fetched.value == [] ==> series == [] && multi == MultiMode(physician)
    ensures connected && fetched.Ok? && fetched.value != [] && Span(fetched.value).None? ==> series == [] && !multi
    ensures connected && fetched.Ok? && fetched.value != [] && Span(fetched.value).Some? ==>
      var rows := fetched.value;
      var axis := SpanAxis(rows);
      multi == MultiMode(physician)
      && (!multi ==> series == SingleFill(axis, CountsOf(rows)))
      && (multi ==> exists ps :: Enumerates(ps, rows) && series == MultiFill(axis, ps, rows))
  {
    multi := false;
    if Truthy(physician) && ';' in physician.value {
      multi := true;
    }
    if !connected {
      return [], multi;
    }
    if fetched.Raised? {
      return [], false;
    }
    var rows := fetched.value;
    if rows == [] {
      return [], multi;
    }
    var days := Days(rows);
    var first, last := MinLex(days), MaxLex(days);
    var start, end := ParseIso(first), ParseIso(last);
    if start.None? || end.None? {
      return [], false;
    }
    series := Densify(rows, multi, start.value, end.value);
  }

  /** The date axis from the first to the last grouped day, then the zero-filled points of the mode. */
  method Densify(rows: seq<Row>, multi: bool, start: Date, end: Date) returns (series: seq<Point>)
    requires Valid(start) && Valid(end)
    ensures var axis := Axis(start, AxisLength(start, end));
      (!multi ==> series == SingleFill(axis, CountsOf(rows)))
      && (multi ==> exists ps :: Enumerates(ps, rows) && series == MultiFill(axis, ps, rows))
  {
    var days := DateAxis(start, end);
    if !multi {
      series := FillSingle(rows, days);
    } else {
      var ps;
      series, ps := FillMulti(rows, days);
    }
  }

  /** A multi-mode series holds one point per (axis day, physician) pair, each once, day-major. */
  lemma MultiSeriesShape(rows: seq<Row>, ps: seq<string>)
    requires rows != [] && Span(rows).Some? && Enumerates(ps, rows)
    ensures var axis := SpanAxis(rows);
      var out := MultiFill(axis, ps, rows);
      |out| == |axis| * |ps|
      && (forall k1, k2 :: 0 <= k1 < k2 < |out| ==> Key(out[k1]) != Key(out[k2]))
  {
    var d0, d1 := Span(rows).value.0, Span(rows).value.1;
    var axis := SpanAxis(rows);
    assert Distinct(axis) by {
      SpanEnds(rows);
      AxisAscending(d0, d1);
      assert axis == Axis(d0, AxisLength(d0, d1));
    }
    MultiFillLength(axis, ps, rows);
    MultiFillPairsOnce(axis, ps, rows);
  }

  // ----- the mode flag against the filter -----

  /** A non-blank character survives `strip()`. */
  lemma StripKeeps(s: string, k: nat)
    requires k < |s| && !IsSpace(s[k])
    ensures s[k] in Strip(s)
  {
    assert !AllSpace(s);
    StripBounds(s);
    var a, b := SkipBlanks(s, 0), TrimEnd(s, |s|);
    assert a <= k < b;
    assert Strip(s)[k - a] == s[k];
  }

  /**
    Multi mode is on exactly when the physician filter takes its list branch (or adds no
    clause because no name survives); otherwise the filter, if any, is a single name.
   */
  lemma ModeMatchesFilter(f: Filters)
    ensures MultiMode(f.physician) ==> Slot(f, 3).None? || Slot(f, 3).value.PhysicianIn?
    ensures !MultiMode(f.physician) ==> Slot(f, 3).None? || Slot(f, 3).value.PhysicianIs?
  {
    if Filled(f.physician) {
      var s := f.physician.value;
      StripInside(s);
      if ';' in s {
        var k :| 0 <= k < |s| && s[k] == ';';
        StripKeeps(s, k);
      }
    }
  }

  /** The entry ";" switches multi mode on although the filter adds no physician clause. */
  lemma ModeWithoutList(raw: string)
    requires raw == ";"
    ensures MultiMode(Some(raw)) && PhysicianSlot(Some(raw)) == None
  {
    assert raw[0] == ';';
    SeparatorOnly(raw);
  }

  // ----- the grouped statistics -----

  /** What a statistics query groups by, and the column and direction it orders by. */
  datatype Shape = Shape(groupBy: seq<string>, orderBy: string, descending: bool)

  /** The dose statistics average `dose_mgy`; the time statistics average the duration in minutes. */
  datatype Measure = Dose | Time

  /** The alias of the mean column: `media_dose` in the dose queries, `media` in the time queries. */
  function MeanColumn(m: Measure): (c: string)
    ensures c == "media_dose" <==> m == Dose
    ensures c == "media" <==> m == Time
  {
    match m
    case Dose => "media_dose"
    case Time => "media"
  }

  /** `calcular_media_medico` and `calcular_media_tempo_medico`: per physician, highest mean first. */
  function PhysicianShape(m: Measure): (s: Shape)
    ensures s.groupBy == ["medico"] && s.descending
    ensures s.orderBy == MeanColumn(m)
  {
    Shape(["medico"], MeanColumn(m), true)
  }

  /** `calcular_media_exame` and `calcular_media_tempo_exame`: per exam and physician in multi mode, else per exam. */
  function ExamShape(m: Measure, multi: bool): (s: Shape)
    ensures multi ==> s.groupBy == ["exam", "medico"] && s.orderBy == "exam" && !s.descending
    ensures !multi ==> s.groupBy == ["exam"] && s.orderBy == MeanColumn(m) && s.descending
  {
    if multi then Shape(["exam", "medico"], "exam", false) else Shape(["exam"], MeanColumn(m), true)
  }

  /** `calcular_media_medico`: a missing connection raises inside the `try` and gives no rows, as does a failing query. */
  function PhysicianDoseStats<T>(connected: bool, fetched: Result<seq<T>>): (rows: seq<T>)
    ensures connected && fetched.Ok? ==> rows == fetched.value
    ensures rows != [] ==> connected && fetched.Ok?
  {
    if connected && fetched.Ok? then fetched.value else []
  }

  /** `calcular_media_exame`: the mode is reported on every path, even when the query fails. */
  function ExamDoseStats<T>(physician: Option<string>, connected: bool, fetched: Result<seq<T>>): (r: (seq<T>, bool))
    ensures r.1 == MultiMode(physician)
    ensures connected && fetched.Ok? ==> r.0 == fetched.value
    ensures r.0 != [] ==> connected && fetched.Ok?
  {
    var multi := MultiMode(physician);
    if connected && fetched.Ok? then (fetched.value, multi) else ([], multi)
  }

  /** `calcular_media_tempo_exame`: a missing connection keeps the mode; a failing query turns it off. */
  function ExamTimeStats<T>(physician: Option<string>, connected: bool, fetched: Result<seq<T>>): (r: (seq<T>, bool))
    ensures r.1 <==> MultiMode(physician) && !(connected && fetched.Raised?)
    ensures connected && fetched.Ok? ==> r.0 == fetched.value
    ensures r.0 != [] ==> connected && fetched.Ok?
  {
    var multi := MultiMode(physician);
    if !connected then ([], multi)
    else if fetched.Raised? then ([], false)
    else (fetched.value, multi)
  }

  /** The exam statistics agree on the mode whenever the query succeeds, and differ only when it raises. */
  lemma ExamStatsModes<T>(physician: Option<string>, connected: bool, fetched: Result<seq<T>>)
    ensures ExamDoseStats(physician, connected, fetched) == ExamTimeStats(physician, connected, fetched)
      <==> !(connected && fetched.Raised? && MultiMode(physician))
  {
  }

  // ----- durations in the statistics -----

  /** SQLite `substr(s, start, len)` for `start >= 1`: the characters from position `start` (1-based), at most `len`. */
  function Substr(s: string, start: nat, len: nat): (r: string)
    requires start >= 1
    ensures |r| <= len
  {
    var a := if start - 1 < |s| then start - 1 else |s|;
    var b := if a + len < |s| then a + len else |s|;
    s[a..b]
  }

  /** The leading run of ASCII digits. */
  function DigitPrefix(s: string): (p: string)
    ensures AllDigits(p) && |p| <= |s| && p == s[..|p|]
    ensures |p| < |s| ==> !IsDigit(s[|p|])
  {
    if s != [] && IsDigit(s[0]) then [s[0]] + DigitPrefix(s[1..]) else []
  }

  /** `CAST(x AS INTEGER)` of a text: the value of its leading digits, 0 when there are none. */
  function CastInt(s: string): (n: nat)
    ensures AllDigits(s) ==> n == Value(s)
    ensures s == [] || !IsDigit(s[0]) ==> n == 0
  {
    if AllDigits(s) then DigitPrefixAll(s); Value(DigitPrefix(s))
    else Value(DigitPrefix(s))
  }

  /**
    The minutes the duration statistics compute from the stored HH:MM:SS text: hours from
    characters 1-2, minutes from 4-5, seconds from 7-8.
   */
  function SqlMinutes(t: string): (r: real)
    ensures |t| == 8 && t[2] == ':' && t[5] == ':' && AllDigits(t[..2]) && AllDigits(t[3..5]) && AllDigits(t[6..]) ==>
      r == (Value(t[..2]) * 60 + Value(t[3..5])) as real + Value(t[6..]) as real / 60.0
  {
    assert |t| == 8 ==> Substr(t, 1, 2) == t[..2] && Substr(t, 4, 2) == t[3..5] && Substr(t, 7, 2) == t[6..];
    (CastInt(Substr(t, 1, 2)) * 60 + CastInt(Substr(t, 4, 2))) as real + CastInt(Substr(t, 7, 2)) as real / 60.0
  }

  lemma {:induction false} DigitPrefixAll(s: string)
    requires AllDigits(s)
    ensures DigitPrefix(s) == s
  {
    if s != [] {
      DigitPrefixAll(s[1..]);
    }
  }

  /** A stored duration of under 100 hours is read back as its whole seconds in minutes. */
  lemma MinutesOfDuration(t: real)
    requires 0.0 <= t < 360000.0
    ensures SqlMinutes(DicomParser.FormatDuration(t)) == t.Floor as real / 60.0
  {
    var f := DicomParser.HmsFields(t);
    assert 0 <= f.0 < 100;
    var h, m, s := DicomParser.Pad2(f.0), DicomParser.Pad2(f.1), DicomParser.Pad2(f.2);
    var text := DicomParser.FormatDuration(t);
    assert text == h + ":" + m + ":" + s;
    assert Substr(text, 1, 2) == h;
    assert Substr(text, 4, 2) == m;
    assert Substr(text, 7, 2) == s;
    DigitPrefixAll(h);
    DigitPrefixAll(m);
    DigitPrefixAll(s);
  }
}
