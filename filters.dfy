/**
  The WHERE fragment shared by the listing, the exports and the statistics
  (`montar_query_filtros` in core/database.py).

  Thirteen optional inputs become a SQL text " FROM exames WHERE 1=1" followed by
  one " AND …" clause per filled-in filter, in a fixed order, and the list of values
  bound to the clause placeholders. The clauses are modelled as values; the SQL text
  and the parameter list are their rendering.
 */
module Filters {
  import opened Wrappers
  import opened Text
  import opened Display

  const Base: string := " FROM exames WHERE 1=1"

  /** The thirteen inputs; `None` stands for Python's None. */
  datatype Filters = Filters(
    dateStart: Option<string>, dateEnd: Option<string>,
    minDose: Option<string>, maxDose: Option<string>,
    physician: Option<string>, exam: Option<string>,
    minTime: Option<string>, maxTime: Option<string>,
    minDap: Option<string>, maxDap: Option<string>,
    room: Option<string>, sex: Option<string>, patient: Option<string>)

  /** `x and str(x).strip()`: present with a non-blank character (so `strip()` leaves something). */
  predicate Filled(o: Option<string>)
  {
    o.Some? && !AllSpace(o.value)
  }

  /** One WHERE condition together with the values it binds. */
  datatype Clause =
    | DateBetween(start: string, end: string)
    | DateFrom(start: string)
    | DoseAtLeast(dose: string)
    | DoseAtMost(dose: string)
    | PhysicianIn(names: seq<string>)
    | PhysicianIs(name: string)
    | ExamIs(exam: string)
    | TimeAtLeast(time: string)
    | TimeAtMost(time: string)
    | DapAtLeast(dap: string)
    | DapAtMost(dap: string)
    | RoomIs(room: string)
    | SexIs(sex: string)
    | PatientIs(patient: string)

  /** The position of a clause's filter in the fixed order. */
  function Rank(c: Clause): nat
  {
    match c
    case DateBetween(_, _) => 0
    case DateFrom(_) => 0
    case DoseAtLeast(_) => 1
    case DoseAtMost(_) => 2
    case PhysicianIn(_) => 3
    case PhysicianIs(_) => 3
    case ExamIs(_) => 4
    case TimeAtLeast(_) => 5
    case TimeAtMost(_) => 6
    case DapAtLeast(_) => 7
    case DapAtMost(_) => 8
    case RoomIs(_) => 9
    case SexIs(_) => 10
    case PatientIs(_) => 11
  }

  const Mark: string := "?"

  /** The compared SQL expression; doses stored with a decimal comma are read as numbers. */
  function Column(c: Clause): (s: string)
    ensures '?' !in s
  {
    match c
    case DateBetween(_, _) => "date(data)"
    case DateFrom(_) => "date(data)"
    case DoseAtLeast(_) => "CAST(REPLACE(dose_mgy, " + "',', '.') AS REAL)"
    case DoseAtMost(_) => "CAST(REPLACE(dose_mgy, " + "',', '.') AS REAL)"
    case PhysicianIn(_) => "medico"
    case PhysicianIs(_) => "medico"
    case ExamIs(_) => "exam"
    case TimeAtLeast(_) => "tempo"
    case TimeAtMost(_) => "tempo"
    case DapAtLeast(_) => "CAST(dap AS REAL)"
    case DapAtMost(_) => "CAST(dap AS REAL)"
    case RoomIs(_) => "sala"
    case SexIs(_) => "sexo"
    case PatientIs(_) => "paciente_id"
  }

  /** `",".join(["?"] * n)`. */
  function Placeholders(n: nat): string
  {
    if n == 0 then [] else if n == 1 then Mark else Placeholders(n - 1) + "," + Mark
  }

  /** What follows the column. */
  function Condition(c: Clause): string
  {
    match c
    case DateBetween(_, _) => "BETWEEN " + Mark + " AND " + Mark
    case PhysicianIn(names) => "IN (" + Placeholders(|names|) + ")"
    case RoomIs(_) => "== " + Mark
    case DoseAtLeast(_) => ">= " + Mark
    case DateFrom(_) => ">= " + Mark
    case TimeAtLeast(_) => ">= " + Mark
    case DapAtLeast(_) => ">= " + Mark
    case DoseAtMost(_) => "<= " + Mark
    case TimeAtMost(_) => "<= " + Mark
    case DapAtMost(_) => "<= " + Mark
    case PhysicianIs(_) => "= " + Mark
    case ExamIs(_) => "= " + Mark
    case SexIs(_) => "= " + Mark
    case PatientIs(_) => "= " + Mark
  }

  /** The text a clause appends to the query. */
  function Sql(c: Clause): string
  {
    " AND " + Column(c) + " " + Condition(c)
  }

  /** The values a clause binds, in placeholder order. */
  function Args(c: Clause): seq<string>
  {
    match c
    case DateBetween(s, e) => [s, e]
    case DateFrom(s) => [s]
    case PhysicianIn(names) => names
    case DoseAtLeast(v) => [v]
    case DoseAtMost(v) => [v]
    case PhysicianIs(v) => [v]
    case ExamIs(v) => [v]
    case TimeAtLeast(v) => [v]
    case TimeAtMost(v) => [v]
    case DapAtLeast(v) => [v]
    case DapAtMost(v) => [v]
    case RoomIs(v) => [v]
    case SexIs(v) => [v]
    case PatientIs(v) => [v]
  }

  function Render(cs: seq<Clause>): string
  {
    if cs == [] then [] else Render(cs[..|cs| - 1]) + Sql(cs[|cs| - 1])
  }

  function ArgsOf(cs: seq<Clause>): seq<string>
  {
    if cs == [] then [] else ArgsOf(cs[..|cs| - 1]) + Args(cs[|cs| - 1])
  }

  /** No blank at either end, which is what `strip()` leaves. */
  predicate Trimmed(s: string)
  {
    s == [] || (!IsSpace(s[0]) && !IsSpace(s[|s| - 1]))
  }

  /** `[m.strip() for m in parts if m.strip()]`. */
  function TrimmedNonBlank(parts: seq<string>): (names: seq<string>)
    ensures |names| <= |parts|
    ensures forall n :: n in names ==> n != [] && Trimmed(n)
  {
    if parts == [] then []
    else
      var rest := TrimmedNonBlank(parts[1..]);
      var t := Strip(parts[0]);
      if t == [] then rest else [t] + rest
  }

  /** Every piece with a non-blank character is kept, stripped, and every name is such a piece stripped. */
  lemma {:induction false} TrimmedNonBlankMembers(parts: seq<string>)
    ensures forall i :: 0 <= i < |parts| && Strip(parts[i]) != [] ==> Strip(parts[i]) in TrimmedNonBlank(parts)
    ensures forall n :: n in TrimmedNonBlank(parts) ==> exists i :: 0 <= i < |parts| && n == Strip(parts[i])
  {
    if parts != [] {
      var tail := parts[1..];
      TrimmedNonBlankMembers(tail);
      assert forall i :: 1 <= i < |parts| ==> parts[i] == tail[i - 1];
      forall n | n in TrimmedNonBlank(parts)
        ensures exists i :: 0 <= i < |parts| && n == Strip(parts[i])
      {
        if n in TrimmedNonBlank(tail) {
          var j :| 0 <= j < |tail| && n == Strip(tail[j]);
          assert n == Strip(parts[j + 1]);
        } else {
          assert n == Strip(parts[0]);
        }
      }
    }
  }

  /** The names keep the order of the pieces: one more piece adds its stripped text at the end, if non-blank. */
  lemma {:induction false} TrimmedNonBlankSnoc(parts: seq<string>, p: string)
    ensures TrimmedNonBlank(parts + [p]) == TrimmedNonBlank(parts) + (if Strip(p) == [] then [] else [Strip(p)])
  {
    if parts == [] {
      assert [p][1..] == [];
    } else {
      assert (parts + [p])[1..] == parts[1..] + [p];
      TrimmedNonBlankSnoc(parts[1..], p);
    }
  }

  /** A character absent from every piece is absent from every name. */
  lemma {:induction false} TrimmedKeepsOut(parts: seq<string>, x: char)
    requires forall p :: p in parts ==> x !in p
    ensures forall n :: n in TrimmedNonBlank(parts) ==> x !in n
  {
    if parts != [] {
      assert forall p :: p in parts[1..] ==> p in parts;
      TrimmedKeepsOut(parts[1..], x);
      StripInside(parts[0]);
    }
  }

  lemma StripIdempotent(s: string)
    ensures Strip(Strip(s)) == Strip(s)
  {
    var t := Strip(s);
    if t != [] {
      StripTrimmed(t);
    }
  }

  /** The names of a physician list: the trimmed, non-blank pieces between semicolons. */
  function PhysicianNames(entry: string): (names: seq<string>)
    ensures |names| <= |SplitOn(entry, ';')|
    ensures forall n :: n in names ==> n != [] && Trimmed(n) && ';' !in n
    ensures var parts := SplitOn(entry, ';');
      forall i :: 0 <= i < |parts| && Strip(parts[i]) != [] ==> Strip(parts[i]) in names
    ensures var parts := SplitOn(entry, ';');
      forall n :: n in names ==> exists i :: 0 <= i < |parts| && n == Strip(parts[i])
  {
    var parts := SplitOn(entry, ';');
    assert forall p :: p in parts ==> ';' !in p;
    TrimmedKeepsOut(parts, ';');
    TrimmedNonBlankMembers(parts);
    TrimmedNonBlank(parts)
  }

  /** The physician filter: a list when the trimmed entry has a semicolon, else one name. */
  function PhysicianSlot(o: Option<string>): (c: Option<Clause>)
    ensures c.Some? ==> c.value.PhysicianIn? || c.value.PhysicianIs?
  {
    if Filled(o) then
      var entry := Strip(o.value);
      if ';' in entry then
        var names := PhysicianNames(entry);
        if names != [] then Some(PhysicianIn(names)) else None
      else Some(PhysicianIs(entry))
    else None
  }

  /** The input read by filter number `k`, for the filters that read a single input. */
  function Field(f: Filters, k: nat): Option<string>
    requires 1 <= k < 12
  {
    if k == 1 then f.minDose else if k == 2 then f.maxDose else if k == 3 then f.physician
    else if k == 4 then f.exam else if k == 5 then f.minTime else if k == 6 then f.maxTime
    else if k == 7 then f.minDap else if k == 8 then f.maxDap else if k == 9 then f.room
    else if k == 10 then f.sex else f.patient
  }

  /** The clause a single-input filter adds for the value `v` it binds. */
  function SingleClause(k: nat, v: string): (c: Clause)
    requires 1 <= k < 12 && k != 3
    ensures Rank(c) == k && Args(c) == [v]
  {
    if k == 1 then DoseAtLeast(v)
    else if k == 2 then DoseAtMost(v)
    else if k == 4 then ExamIs(v)
    else if k == 5 then TimeAtLeast(v)
    else if k == 6 then TimeAtMost(v)
    else if k == 7 then DapAtLeast(v)
    else if k == 8 then DapAtMost(v)
    else if k == 9 then RoomIs(v)
    else if k == 10 then SexIs(v)
    else PatientIs(v)
  }

  /** The value a single-input filter binds: the exam trimmed, every other input as given. */
  function Bound(k: nat, v: string): string
  {
    if k == 4 then Strip(v) else v
  }

  /** The clause, if any, that filter number `k` (in the fixed order) contributes. */
  function Slot(f: Filters, k: nat): (c: Option<Clause>)
    requires k < 12
    ensures c.Some? ==> Rank(c.value) == k
  {
    if k == 0 then
      if Truthy(f.dateStart) && Truthy(f.dateEnd) then Some(DateBetween(f.dateStart.value, f.dateEnd.value))
      else if Truthy(f.dateStart) then Some(DateFrom(f.dateStart.value))
      else None
    else if k == 3 then PhysicianSlot(f.physician)
    else if Filled(Field(f, k)) then Some(SingleClause(k, Bound(k, Field(f, k).value)))
    else None
  }

  /** The clauses of the first `k` filters. */
  function Upto(f: Filters, k: nat): seq<Clause>
    requires k <= 12
  {
    if k == 0 then []
    else
      match Slot(f, k - 1)
      case None => Upto(f, k - 1)
      case Some(c) => Upto(f, k - 1) + [c]
  }

  /** The clauses `montar_query_filtros` adds, in the order it adds them. */
  function Clauses(f: Filters): seq<Clause>
  {
    Upto(f, 12)
  }

  lemma AppendAssoc<T>(a: seq<T>, b: seq<T>, c: seq<T>)
    ensures a + (b + c) == (a + b) + c
  {
  }

  /** Appending one clause extends the query text (after any prefix) by that clause's text, and the parameters by its values. */
  lemma RenderSnoc(pre: string, cs: seq<Clause>, c: Clause)
    ensures pre + Render(cs + [c]) == (pre + Render(cs)) + Sql(c)
    ensures ArgsOf(cs + [c]) == ArgsOf(cs) + Args(c)
  {
    assert (cs + [c])[..|cs|] == cs;
    AppendAssoc(pre, Render(cs), Sql(c));
  }

  /** The query under construction after the first `k` filters: text, parameters and the clauses they render. */
  ghost predicate Built(f: Filters, k: nat, sql: string, params: seq<string>, added: seq<Clause>)
  {
    k <= 12 && added == Upto(f, k) && sql == Base + Render(added) && params == ArgsOf(added)
  }

  /** The date filter: BETWEEN with both bounds, ">=" with the start alone. */
  method AddDateFilter(f: Filters, sql: string, params: seq<string>, ghost added: seq<Clause>)
    returns (sql': string, params': seq<string>, ghost added': seq<Clause>)
    requires Built(f, 0, sql, params, added)
    ensures Built(f, 1, sql', params', added')
  {
    sql', params', added' := sql, params, added;
    if Truthy(f.dateStart) && Truthy(f.dateEnd) {
      var c := DateBetween(f.dateStart.value, f.dateEnd.value);
      RenderSnoc(Base, added, c);
      sql', params', added' := sql + Sql(c), params + [f.dateStart.value, f.dateEnd.value], added + [c];
    } else if Truthy(f.dateStart) {
      var c := DateFrom(f.dateStart.value);
      RenderSnoc(Base, added, c);
      sql', params', added' := sql + Sql(c), params + [f.dateStart.value], added + [c];
    }
  }

  /** A filter with one input: one clause when the input has a non-blank character. */
  method AddSingleFilter(f: Filters, k: nat, sql: string, params: seq<string>, ghost added: seq<Clause>)
    returns (sql': string, params': seq<string>, ghost added': seq<Clause>)
    requires 1 <= k < 12 && k != 3 && Built(f, k, sql, params, added)
    ensures Built(f, k + 1, sql', params', added')
  {
    sql', params', added' := sql, params, added;
    var input := Field(f, k);
    if Filled(input) {
      var v := if k == 4 then Strip(input.value) else input.value;
      var c := SingleClause(k, v);
      RenderSnoc(Base, added, c);
      sql', params', added' := sql + Sql(c), params + [v], added + [c];
    }
  }

  /** The physician filter: an IN list when the trimmed entry has a semicolon, else one name. */
  method AddPhysicianFilter(f: Filters, sql: string, params: seq<string>, ghost added: seq<Clause>)
    returns (sql': string, params': seq<string>, ghost added': seq<Clause>)
    requires Built(f, 3, sql, params, added)
    ensures Built(f, 4, sql', params', added')
  {
    sql', params', added' := sql, params, added;
    assert Slot(f, 3) == PhysicianSlot(f.physician);
    if Filled(f.physician) {
      var entry := Strip(f.physician.value);
      if ';' in entry {
        var names := PhysicianNames(entry);
        if names != [] {
          var c := PhysicianIn(names);
          assert PhysicianSlot(f.physician) == Some(c);
          RenderSnoc(Base, added, c);
          sql', params', added' := sql + Sql(c), params + names, added + [c];
        }
      } else {
        var c := PhysicianIs(entry);
        assert PhysicianSlot(f.physician) == Some(c);
        RenderSnoc(Base, added, c);
        sql', params', added' := sql + Sql(c), params + [entry], added + [c];
      }
    }
  }

  /**
    `montar_query_filtros`: the query text grows by one clause per filled-in filter and
    the parameters by that clause's values; the result is the base text followed by the
    rendering of `Clauses(f)`, with `Clauses(f)`'s values as parameters.
   */
  method BuildFilters(f: Filters) returns (sql: string, params: seq<string>)
    ensures sql == Base + Render(Clauses(f))
    ensures params == ArgsOf(Clauses(f))
  {
    sql, params := Base, [];
    ghost var added: seq<Clause> := [];
    assert Base + Render(added) == Base;
    sql, params, added := AddDateFilter(f, sql, params, added);
    sql, params, added := AddSingleFilter(f, 1, sql, params, added);
    sql, params, added := AddSingleFilter(f, 2, sql, params, added);
    sql, params, added := AddPhysicianFilter(f, sql, params, added);
    sql, params, added := AddSingleFilter(f, 4, sql, params, added);
    sql, params, added := AddSingleFilter(f, 5, sql, params, added);
    sql, params, added := AddSingleFilter(f, 6, sql, params, added);
    sql, params, added := AddSingleFilter(f, 7, sql, params, added);
    sql, params, added := AddSingleFilter(f, 8, sql, params, added);
    sql, params, added := AddSingleFilter(f, 9, sql, params, added);
    sql, params, added := AddSingleFilter(f, 10, sql, params, added);
    sql, params, added := AddSingleFilter(f, 11, sql, params, added);
  }

  // ----- properties of the clause list -----

  /** The first `j` filters' clauses are a prefix of the first `k`'s, and the later ones come from later filters. */
  lemma {:induction false} UptoFrom(f: Filters, j: nat, k: nat)
    requires j <= k <= 12
    ensures |Upto(f, j)| <= |Upto(f, k)| && Upto(f, k)[..|Upto(f, j)|] == Upto(f, j)
    ensures forall i :: |Upto(f, j)| <= i < |Upto(f, k)| ==> j <= Rank(Upto(f, k)[i]) < k
  {
    if j < k {
      UptoFrom(f, j, k - 1);
      var a := Upto(f, k - 1);
      match Slot(f, k - 1)
      case None =>
      case Some(c) =>
        assert Upto(f, k) == a + [c];
        assert forall i :: 0 <= i < |a| ==> (a + [c])[i] == a[i];
    } else {
      assert Upto(f, k)[..|Upto(f, k)|] == Upto(f, k);
    }
  }

  /** Every clause of the first `k` filters comes from one of them, in increasing filter order. */
  lemma {:induction false} UptoOrdered(f: Filters, k: nat)
    requires k <= 12
    ensures forall i, j :: 0 <= i < j < |Upto(f, k)| ==> Rank(Upto(f, k)[i]) < Rank(Upto(f, k)[j])
  {
    if k > 0 {
      UptoOrdered(f, k - 1);
      UptoFrom(f, 0, k - 1);
      var a := Upto(f, k - 1);
      match Slot(f, k - 1)
      case None =>
      case Some(c) =>
        assert Upto(f, k) == a + [c];
        assert forall i :: 0 <= i < |a| ==> (a + [c])[i] == a[i];
    }
  }

  /** A run of strictly increasing ranks below `n` has at most `n` elements. */
  lemma {:induction false} StrictRanksBound(cs: seq<Clause>, n: nat)
    requires forall i :: 0 <= i < |cs| ==> Rank(cs[i]) < n
    requires forall i, j :: 0 <= i < j < |cs| ==> Rank(cs[i]) < Rank(cs[j])
    ensures |cs| <= n
  {
    if cs != [] {
      var init := cs[..|cs| - 1];
      assert forall i :: 0 <= i < |init| ==> Rank(init[i]) < Rank(cs[|cs| - 1]) <= n - 1;
      StrictRanksBound(init, n - 1);
    }
  }

  /**
    Clauses appear in the order date, min dose, max dose, physician, exam, min time,
    max time, min DAP, max DAP, room, sex, patient, each filter adding at most one.
   */
  lemma ClauseOrder(f: Filters)
    ensures |Clauses(f)| <= 12
    ensures forall i, j :: 0 <= i < j < |Clauses(f)| ==> Rank(Clauses(f)[i]) < Rank(Clauses(f)[j])
  {
    UptoOrdered(f, 12);
    UptoFrom(f, 0, 12);
    StrictRanksBound(Clauses(f), 12);
  }

  /** The number of '?' characters. */
  function Marks(s: string): nat
  {
    if s == [] then 0 else (if s[0] == '?' then 1 else 0) + Marks(s[1..])
  }

  lemma {:induction false} MarksAppend(a: string, b: string)
    ensures Marks(a + b) == Marks(a) + Marks(b)
  {
    if a != [] {
      assert (a + b)[1..] == a[1..] + b;
      MarksAppend(a[1..], b);
    } else {
      assert a + b == b;
    }
  }

  lemma {:induction false} MarksNone(s: string)
    requires '?' !in s
    ensures Marks(s) == 0
  {
    if s != [] {
      assert s[0] in s;
      assert forall x :: x in s[1..] ==> x in s;
      MarksNone(s[1..]);
    }
  }

  lemma MarkOne()
    ensures Marks(Mark) == 1
  {
    assert Mark[1..] == [];
  }

  /** A fixed text followed by one placeholder holds one placeholder. */
  lemma OneMark(op: string)
    requires '?' !in op
    ensures Marks(op + Mark) == 1
  {
    MarkOne();
    MarksAppend(op, Mark);
    MarksNone(op);
  }

  lemma {:induction false} PlaceholdersMarks(n: nat)
    ensures Marks(Placeholders(n)) == n
  {
    MarkOne();
    if n > 1 {
      PlaceholdersMarks(n - 1);
      MarksAppend(Placeholders(n - 1) + ",", Mark);
      MarksAppend(Placeholders(n - 1), ",");
      MarksNone(",");
    }
  }

  lemma ConditionMarks(c: Clause)
    ensures Marks(Condition(c)) == |Args(c)|
  {
    match c
    case DateBetween(_, _) =>
      OneMark("BETWEEN ");
      OneMark(" AND ");
      assert Condition(c) == ("BETWEEN " + Mark) + (" AND " + Mark);
      MarksAppend("BETWEEN " + Mark, " AND " + Mark);
    case PhysicianIn(names) =>
      MarksAppend("IN (" + Placeholders(|names|), ")");
      MarksAppend("IN (", Placeholders(|names|));
      MarksNone("IN (");
      MarksNone(")");
      PlaceholdersMarks(|names|);
    case RoomIs(_) => OneMark("== ");
    case DoseAtLeast(_) => OneMark(">= ");
    case DateFrom(_) => OneMark(">= ");
    case TimeAtLeast(_) => OneMark(">= ");
    case DapAtLeast(_) => OneMark(">= ");
    case DoseAtMost(_) => OneMark("<= ");
    case TimeAtMost(_) => OneMark("<= ");
    case DapAtMost(_) => OneMark("<= ");
    case PhysicianIs(_) => OneMark("= ");
    case ExamIs(_) => OneMark("= ");
    case SexIs(_) => OneMark("= ");
    case PatientIs(_) => OneMark("= ");
  }

  /** Each clause has one placeholder per bound value. */
  lemma ClauseMarks(c: Clause)
    ensures Marks(Sql(c)) == |Args(c)|
  {
    var col, cond := Column(c), Condition(c);
    MarksAppend(" AND " + col + " ", cond);
    MarksAppend(" AND " + col, " ");
    MarksAppend(" AND ", col);
    MarksNone(" AND ");
    MarksNone(" ");
    MarksNone(col);
    ConditionMarks(c);
  }

  lemma {:induction false} RenderMarks(cs: seq<Clause>)
    ensures Marks(Render(cs)) == |ArgsOf(cs)|
  {
    if cs != [] {
      RenderMarks(cs[..|cs| - 1]);
      ClauseMarks(cs[|cs| - 1]);
      MarksAppend(Render(cs[..|cs| - 1]), Sql(cs[|cs| - 1]));
    }
  }

  /** Whatever the clauses, the query text has exactly as many placeholders as there are parameters. */
  lemma QueryMarks(cs: seq<Clause>)
    ensures Marks(Base + Render(cs)) == |ArgsOf(cs)|
  {
    RenderMarks(cs);
    MarksAppend(Base, Render(cs));
    BaseMarks(Base);
  }

  lemma BaseMarks(base: string)
    requires base == Base
    ensures Marks(base) == 0
  {
    BaseNoMark();
    MarksNone(base);
  }

  lemma BaseNoMark()
    ensures '?' !in Base
  {
  }

  /** The query text of every filter combination has exactly as many placeholders as there are parameters. */
  lemma PlaceholdersMatchParams(f: Filters)
    ensures Marks(Base + Render(Clauses(f))) == |ArgsOf(Clauses(f))|
  {
    QueryMarks(Clauses(f));
  }

  /** Absent or empty. */
  predicate Unset(o: Option<string>)
  {
    o.None? || o.value == []
  }

  /** With every filter absent or empty the result is the base text and no parameter. */
  lemma NoFilters(f: Filters)
    requires Unset(f.dateStart) && Unset(f.dateEnd) && Unset(f.minDose) && Unset(f.maxDose)
    requires Unset(f.physician) && Unset(f.exam) && Unset(f.minTime) && Unset(f.maxTime)
    requires Unset(f.minDap) && Unset(f.maxDap) && Unset(f.room) && Unset(f.sex) && Unset(f.patient)
    ensures Base + Render(Clauses(f)) == " FROM exames WHERE 1=1"
    ensures ArgsOf(Clauses(f)) == []
  {
    forall k | 1 <= k < 12
      ensures !Filled(Field(f, k))
    {
      assert Unset(Field(f, k));
    }
    UptoNone(f, 12);
    assert Base + [] == Base;
  }

  lemma {:induction false} UptoNone(f: Filters, k: nat)
    requires k <= 12 && forall j :: 0 <= j < k ==> Slot(f, j) == None
    ensures Upto(f, k) == []
  {
    if k > 0 {
      UptoNone(f, k - 1);
    }
  }

  /** The date filter: both bounds give BETWEEN, the start alone gives ">=", the end alone gives nothing. */
  lemma DateFilter(f: Filters)
    ensures Truthy(f.dateStart) && Truthy(f.dateEnd) ==>
      |Clauses(f)| > 0 && Clauses(f)[0] == DateBetween(f.dateStart.value, f.dateEnd.value)
    ensures Truthy(f.dateStart) && !Truthy(f.dateEnd) ==>
      |Clauses(f)| > 0 && Clauses(f)[0] == DateFrom(f.dateStart.value)
    ensures !Truthy(f.dateStart) ==> forall i :: 0 <= i < |Clauses(f)| ==> Rank(Clauses(f)[i]) > 0
  {
    UptoFrom(f, 1, 12);
    assert Upto(f, 0) == [];
    if Truthy(f.dateStart) {
      assert Upto(f, 1) == [Slot(f, 0).value];
      assert Clauses(f)[..1] == Upto(f, 1);
    }
  }

  /** A single-input filter adds a clause exactly when its input has a non-blank character; the exam is bound trimmed, the rest as given. */
  lemma SingleInputFilter(f: Filters, k: nat)
    requires 1 <= k < 12 && k != 3
    ensures Slot(f, k).Some? <==> Filled(Field(f, k))
    ensures Slot(f, k).Some? ==> Args(Slot(f, k).value) == [if k == 4 then Strip(Field(f, k).value) else Field(f, k).value]
    ensures k == 4 && Slot(f, k).Some? ==> Trimmed(Args(Slot(f, k).value)[0]) && Args(Slot(f, k).value)[0] != []
  {
  }

  /**
    The physician filter: without a semicolon the trimmed entry is bound as one name; with
    one, each bound name is non-empty, trimmed and free of semicolons, and no clause is
    added when no name survives.
   */
  lemma PhysicianFilter(f: Filters)
    ensures Filled(f.physician) && ';' !in Strip(f.physician.value) ==> Slot(f, 3) == Some(PhysicianIs(Strip(f.physician.value)))
    ensures Filled(f.physician) && ';' in Strip(f.physician.value) ==>
      var names := PhysicianNames(Strip(f.physician.value));
      Slot(f, 3) == if names == [] then None else Some(PhysicianIn(names))
    ensures Slot(f, 3).Some? ==> Filled(f.physician)
    ensures Slot(f, 3).Some? ==> Args(Slot(f, 3).value) != []
    ensures Slot(f, 3).Some? ==> forall i :: 0 <= i < |Args(Slot(f, 3).value)| ==>
      Trimmed(Args(Slot(f, 3).value)[i]) && Args(Slot(f, 3).value)[i] != []
  {
    assert Slot(f, 3) == PhysicianSlot(f.physician);
    if Filled(f.physician) {
      var entry := Strip(f.physician.value);
      if ';' in entry {
        var names := PhysicianNames(entry);
        if names != [] {
          assert Args(PhysicianIn(names)) == names;
          assert forall i :: 0 <= i < |names| ==> names[i] in names;
        }
      } else {
        assert Args(PhysicianIs(entry)) == [entry];
      }
    }
  }

  /** "A; B ; " as the physician filter binds the two names "A" and "B". */
  lemma PhysicianListExample(raw: string)
    requires raw == "A; B ; "
    ensures PhysicianSlot(Some(raw)) == Some(PhysicianIn(["A", "B"]))
  {
    ExampleEntry(raw);
    ExampleSplit(raw[..6]);
    var ps := SplitOn(raw[..6], ';');
    StripA(ps[0]);
    StripSpacedB(ps[1]);
    TrimThree(ps[0], ps[1], ps[2]);
    assert ps == [ps[0], ps[1], ps[2]];
  }

  lemma ExampleEntry(raw: string)
    requires raw == "A; B ; "
    ensures Filled(Some(raw)) && Strip(raw) == raw[..6] && ';' in raw[..6]
  {
    var entry := raw[..6];
    assert !AllSpace(raw) by { assert !IsSpace(raw[0]); }
    assert SkipBlanks(raw, 0) == 0;
    assert TrimEnd(raw, 6) == 6;
    assert TrimEnd(raw, 7) == 6;
    StripBounds(raw);
    assert entry[1] == ';';
  }

  lemma ExampleSplit(entry: string)
    requires entry == "A; B ;"
    ensures SplitOn(entry, ';') == ["A", " B ", ""]
  {
    var ps := ["A", " B ", ""];
    assert JoinWith(ps, ';') == entry by {
      assert ps[1..][1..] == [""];
    }
    assert forall i :: 0 <= i < |ps| ==> ';' !in ps[i];
    SplitOnUnique(entry, ';', ps);
  }

  /** One step of `[m.strip() for m in parts if m.strip()]`. */
  lemma TrimmedNonBlankCons(p: string, rest: seq<string>)
    ensures TrimmedNonBlank([p] + rest) == (if Strip(p) == [] then [] else [Strip(p)]) + TrimmedNonBlank(rest)
  {
    assert ([p] + rest)[1..] == rest;
  }

  lemma StripA(a: string)
    requires a == "A"
    ensures Strip(a) == "A"
  {
    StripTrimmed(a);
  }

  lemma StripSpacedB(b: string)
    requires b == " B "
    ensures Strip(b) == "B"
  {
    assert !AllSpace(b) by { assert !IsSpace(b[1]); }
    assert SkipBlanks(b, 1) == 1;
    assert SkipBlanks(b, 0) == 1;
    assert TrimEnd(b, 2) == 2;
    assert TrimEnd(b, 3) == 2;
    StripBounds(b);
  }

  /** Three pieces of which the last is blank keep the first two, trimmed. */
  lemma TrimThree(a: string, b: string, e: string)
    requires Strip(a) != [] && Strip(b) != [] && Strip(e) == []
    ensures TrimmedNonBlank([a, b, e]) == [Strip(a), Strip(b)]
  {
    assert [e][1..] == [];
    assert TrimmedNonBlank([e]) == [];
    assert [b, e][1..] == [e];
    assert TrimmedNonBlank([b, e]) == [Strip(b)];
    assert [a, b, e][1..] == [b, e];
  }

  /** An entry made only of a separator, ";", adds no clause. */
  lemma SeparatorOnly(raw: string)
    requires raw == ";"
    ensures PhysicianSlot(Some(raw)) == None
  {
    SeparatorEntry(raw);
    SeparatorSplit(raw);
    TrimmedNonBlankCons([], [[]]);
    TrimmedNonBlankCons([], []);
  }

  lemma SeparatorEntry(raw: string)
    requires raw == ";"
    ensures Filled(Some(raw)) && Strip(raw) == raw && ';' in raw
  {
    assert !IsSpace(raw[0]);
    StripTrimmed(raw);
  }

  lemma SeparatorSplit(raw: string)
    requires raw == ";"
    ensures SplitOn(raw, ';') == [[], []]
  {
    var ps: seq<string> := [[], []];
    assert ps[1..] == [[]];
    SplitOnUnique(raw, ';', ps);
  }
}
