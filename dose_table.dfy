/**
  The `codigos_dose` table of `main.py` (six DCM codes of DICOM PS3.16 with a
  readable name and a unit) and `extrair_valores`, which walks an SR content
  tree and records every tabled measurement under "name (unit)" in a
  dictionary, the last one written winning.
 */
module DoseTable {
  import opened Wrappers
  import opened DicomParser

  datatype Quantity = Quantity(name: string, unit: string)

  /** `codigos_dose`. */
  const DoseCodes: map<string, Quantity> := map[
    "113722" := Quantity("Dose Area Product Total", "Gy\U{B7}m\U{B2}"),
    "113725" := Quantity("Dose (RP) Total", "Gy"),
    "113730" := Quantity("Total Fluoro Time", "s"),
    "113855" := Quantity("Total Acquisition Time", "s"),
    "122130" := Quantity("Dose Area Product (Individual)", "Gy\U{B7}m\U{B2}"),
    "113738" := Quantity("Dose (RP) (Individual)", "Gy")
  ]

  /** The dictionary key `f"{nome} ({unidade})"`. */
  function Label(q: Quantity): string
  {
    q.name + " (" + q.unit + ")"
  }

  /** The key a tabled code is recorded under. */
  function KeyOf(c: string): string
    requires c in DoseCodes
  {
    Label(DoseCodes[c])
  }

  /** The item carries a tabled code and a readable number, which it records under key `k`. */
  predicate Writes(it: Item, k: string)
  {
    it.concept.Code? && it.concept.value in DoseCodes && KeyOf(it.concept.value) == k && it.measured.Numeric?
  }

  /** Reading the item raises: an empty code sequence, or a tabled code whose value cannot be read. */
  predicate Broken(it: Item)
  {
    it.concept == EmptyCodeSequence
    || (it.concept.Code? && it.concept.value in DoseCodes && it.measured == UnreadableMeasurement)
  }

  /** What `extrair_valores` does with one item's own concept and value, before its children. */
  function Record(it: Item, info: map<string, real>): Result<map<string, real>>
  {
    match it.concept
    case NoConcept => Ok(info)
    case EmptyCodeSequence => Raised("IndexError: ConceptNameCodeSequence[0]")
    case Code(c) =>
      if c in DoseCodes then
        match it.measured
        case NoMeasurement => Ok(info)
        case UnreadableMeasurement => Raised("MeasuredValueSequence[0].NumericValue")
        case Numeric(v) => Ok(info[KeyOf(c) := v])
      else Ok(info)
  }

  /** `extrair_valores(sequence, info)` on the value of `info`: each item, then its ContentSequence, then the next item. */
  function Collect(items: seq<Item>, info: map<string, real>): Result<map<string, real>>
    decreases items
  {
    if items == [] then Ok(info)
    else
      assert items[0] in items;
      match Record(items[0], info)
      case Raised(e) => Raised(e)
      case Ok(i1) =>
        match Collect(items[0].children, i1)
        case Raised(e) => Raised(e)
        case Ok(i2) => Collect(items[1..], i2)
  }

  /** Recording a flat list of items left to right, stopping at the first that raises. */
  function CollectAll(flat: seq<Item>, info: map<string, real>): Result<map<string, real>>
  {
    if flat == [] then Ok(info)
    else
      match Record(flat[0], info)
      case Raised(e) => Raised(e)
      case Ok(i1) => CollectAll(flat[1..], i1)
  }

  /** The entry for `k`, if any. */
  function Lookup(info: map<string, real>, k: string): Option<real>
  {
    if k in info then Some(info[k]) else None
  }

  /** `x` is the value of the last item writing key `k`, or `d` when no item writes it. */
  ghost predicate LastWrite(flat: seq<Item>, k: string, x: Option<real>, d: Option<real>)
  {
    || (exists i :: 0 <= i < |flat| && Writes(flat[i], k) && x == Some(flat[i].measured.value)
                    && forall j :: i < j < |flat| ==> !Writes(flat[j], k))
    || ((forall i :: 0 <= i < |flat| ==> !Writes(flat[i], k)) && x == d)
  }

  /** The dictionary `info`, updated in place. */
  class ValueTable {
    var entries: map<string, real>

    constructor ()
      ensures entries == map[]
    {
      entries := map[];
    }
  }

  /**
    `extrair_valores(sequence, info)`: updates `info` item by item and recurses into each
    item's ContentSequence. `ok` is false when reading an item raised (the exception leaves
    the function), in which case `info` holds whatever was written before.
   */
  method ExtractValues(items: seq<Item>, info: ValueTable) returns (ok: bool)
    modifies info
    ensures ok <==> Collect(items, old(info.entries)).Ok?
    ensures ok ==> info.entries == Collect(items, old(info.entries)).value
    decreases items
  {
    ghost var start := info.entries;
    var i := 0;
    while i < |items|
      invariant 0 <= i <= |items|
      invariant Collect(items, start) == Collect(items[i..], info.entries)
    {
      assert items[i..][0] == items[i] && items[i..][1..] == items[i + 1..];
      var it := items[i];
      assert it in items;
      match it.concept {
        case EmptyCodeSequence =>
          return false;
        case NoConcept =>
        case Code(c) =>
          if c in DoseCodes {
            var q := DoseCodes[c];
            match it.measured {
              case UnreadableMeasurement =>
                return false;
              case NoMeasurement =>
              case Numeric(v) =>
                info.entries := info.entries[q.name + " (" + q.unit + ")" := v];
            }
          }
      }
      ok := ExtractValues(it.children, info);
      if !ok {
        return;
      }
      i := i + 1;
    }
    assert items[i..] == [];
    ok := true;
  }

  // ----- meaning of the walk -----

  lemma {:induction false} CollectAllAppend(a: seq<Item>, b: seq<Item>, info: map<string, real>)
    ensures CollectAll(a + b, info) == match CollectAll(a, info) case Ok(i1) => CollectAll(b, i1) case Raised(e) => Raised(e)
  {
    if a != [] {
      assert (a + b)[0] == a[0] && (a + b)[1..] == a[1..] + b;
      match Record(a[0], info)
      case Raised(e) =>
      case Ok(i1) => CollectAllAppend(a[1..], b, i1);
    } else {
      assert a + b == b;
    }
  }

  /** The recursive walk records the tree's items left to right in pre-order, at any depth. */
  lemma {:induction false} CollectIsPreorder(items: seq<Item>, info: map<string, real>)
    ensures Collect(items, info) == CollectAll(Preorder(items), info)
    decreases items
  {
    if items != [] {
      assert items[0] in items;
      var it := items[0];
      var pre := Preorder(items);
      assert pre[0] == it && pre[1..] == Preorder(it.children) + Preorder(items[1..]);
      match Record(it, info)
      case Raised(e) =>
      case Ok(i1) =>
        CollectIsPreorder(it.children, i1);
        CollectAllAppend(Preorder(it.children), Preorder(items[1..]), i1);
        match Collect(it.children, i1)
        case Raised(e) =>
        case Ok(i2) => CollectIsPreorder(items[1..], i2);
    }
  }

  /** Recording raises exactly when some item is broken. */
  lemma {:induction false} CollectAllRaises(flat: seq<Item>, info: map<string, real>)
    ensures CollectAll(flat, info).Raised? <==> exists i :: 0 <= i < |flat| && Broken(flat[i])
  {
    if flat != [] {
      match Record(flat[0], info)
      case Raised(e) =>
      case Ok(i1) =>
        CollectAllRaises(flat[1..], i1);
        if exists i :: 0 <= i < |flat| && Broken(flat[i]) {
          var i :| 0 <= i < |flat| && Broken(flat[i]);
          assert i > 0 && Broken(flat[1..][i - 1]);
        }
        if exists i :: 0 <= i < |flat[1..]| && Broken(flat[1..][i]) {
          var i :| 0 <= i < |flat[1..]| && Broken(flat[1..][i]);
          assert Broken(flat[i + 1]);
        }
    }
  }

  /** One item's own step changes only the key it writes, and only when it writes one. */
  lemma RecordLookup(it: Item, info: map<string, real>, k: string)
    requires Record(it, info).Ok?
    ensures Lookup(Record(it, info).value, k) == if Writes(it, k) then Some(it.measured.value) else Lookup(info, k)
  {
  }

  /** Last write wins: after a successful walk, every key holds the last value written to it, or what it held before. */
  lemma {:induction false} CollectAllMeaning(flat: seq<Item>, info: map<string, real>, r: map<string, real>)
    requires CollectAll(flat, info) == Ok(r)
    ensures forall k :: LastWrite(flat, k, Lookup(r, k), Lookup(info, k))
  {
    if flat != [] {
      var i1 := Record(flat[0], info).value;
      CollectAllMeaning(flat[1..], i1, r);
      forall k
        ensures LastWrite(flat, k, Lookup(r, k), Lookup(info, k))
      {
        RecordLookup(flat[0], info, k);
        LastWriteStep(flat, k, Lookup(r, k), Lookup(info, k), Lookup(i1, k));
      }
    }
  }

  lemma LastWriteStep(flat: seq<Item>, k: string, x: Option<real>, d: Option<real>, d1: Option<real>)
    requires flat != []
    requires d1 == if Writes(flat[0], k) then Some(flat[0].measured.value) else d
    requires LastWrite(flat[1..], k, x, d1)
    ensures LastWrite(flat, k, x, d)
  {
    var tail := flat[1..];
    if exists i :: 0 <= i < |tail| && Writes(tail[i], k) && x == Some(tail[i].measured.value)
                   && forall j :: i < j < |tail| ==> !Writes(tail[j], k) {
      var i :| 0 <= i < |tail| && Writes(tail[i], k) && x == Some(tail[i].measured.value)
               && forall j :: i < j < |tail| ==> !Writes(tail[j], k);
      assert flat[i + 1] == tail[i];
      assert forall j :: i + 1 < j < |flat| ==> flat[j] == tail[j - 1];
    } else {
      assert forall j :: 0 < j < |flat| ==> flat[j] == tail[j - 1];
      if Writes(flat[0], k) {
        assert Writes(flat[0], k) && x == Some(flat[0].measured.value) && forall j :: 0 < j < |flat| ==> !Writes(flat[j], k);
      }
    }
  }

  /** Only the six table keys can be added. */
  lemma {:induction false} CollectAllKeys(flat: seq<Item>, info: map<string, real>)
    requires CollectAll(flat, info).Ok?
    ensures CollectAll(flat, info).value.Keys <= info.Keys + set c | c in DoseCodes :: KeyOf(c)
  {
    if flat != [] {
      var i1 := Record(flat[0], info).value;
      CollectAllKeys(flat[1..], i1);
    }
  }

  // ----- the table itself -----

  /** The six codes are recorded under six different keys: their lengths already differ. */
  lemma KeysDistinct()
    ensures |DoseCodes| == 6
    ensures forall c, d :: c in DoseCodes && d in DoseCodes && c != d ==> KeyOf(c) != KeyOf(d)
  {
    assert DoseCodes.Keys == {"113722", "113725", "113730", "113855", "122130", "113738"};
    forall c, d | c in DoseCodes && d in DoseCodes && c != d
      ensures KeyOf(c) != KeyOf(d)
    {
      KeyLength(c);
      KeyLength(d);
    }
  }

  lemma KeyLength(c: string)
    requires c in DoseCodes
    ensures |KeyOf(c)| == |DoseCodes[c].name| + |DoseCodes[c].unit| + 3
    ensures |KeyOf(c)| == if c == "113722" then 31 else if c == "113725" then 20 else if c == "113730" then 21
      else if c == "113855" then 26 else if c == "122130" then 38 else 27
  {
    assert DoseCodes.Keys == {"113722", "113725", "113730", "113855", "122130", "113738"};
  }

  // ----- agreement with the import walker -----

  /** An item writes the key of a tabled code exactly when it carries that code and a number. */
  lemma WritesIsReads(it: Item, c: string)
    requires c in DoseCodes
    ensures Writes(it, KeyOf(c)) <==> Reads(it, c)
  {
    KeysDistinct();
  }

  /** A last write and a last value taken from the same items agree. */
  lemma SameLast(flat: seq<Item>, c: string, k: string, x: real, y: Option<real>)
    requires forall i :: 0 <= i < |flat| ==> (Writes(flat[i], k) <==> Reads(flat[i], c))
    requires LastOr(flat, c, x, 0.0)
    requires LastWrite(flat, k, y, None)
    ensures y == Some(x) || (y == None && x == 0.0)
  {
    if exists i :: 0 <= i < |flat| && Reads(flat[i], c) {
      var i1 :| 0 <= i1 < |flat| && Reads(flat[i1], c) && x == flat[i1].measured.value
                && forall j :: i1 < j < |flat| ==> !Reads(flat[j], c);
      var i2 :| 0 <= i2 < |flat| && Writes(flat[i2], k) && y == Some(flat[i2].measured.value)
                && forall j :: i2 < j < |flat| ==> !Writes(flat[j], k);
      assert !(i1 < i2) && !(i2 < i1);
    }
  }

  /**
    On a document the import walker reads without raising, the table walk raises neither,
    and its Dose (RP) Total and Dose Area Product Total entries are the walker's Dose and
    DAP; an entry is missing only where the walker's slot stayed 0.0.
   */
  lemma AgreesWithWalker(items: seq<Item>)
    requires Walk(items, ZeroMetrics).Ok?
    ensures Collect(items, map[]).Ok?
    ensures var r, m := Collect(items, map[]).value, Walk(items, ZeroMetrics).value;
      && (KeyOf(DoseCode) in r ==> r[KeyOf(DoseCode)] == m.dose)
      && (KeyOf(DoseCode) !in r ==> m.dose == 0.0)
      && (KeyOf(DapCode) in r ==> r[KeyOf(DapCode)] == m.dap)
      && (KeyOf(DapCode) !in r ==> m.dap == 0.0)
  {
    var pre := Preorder(items);
    assert forall it :: Broken(it) ==> Faulty(it);
    var m := Walk(items, ZeroMetrics).value;
    DocumentMetrics(items);
    CollectIsPreorder(items, map[]);
    CollectAllRaises(pre, map[]);
    var r := Collect(items, map[]).value;
    CollectAllMeaning(pre, map[], r);
    forall i | 0 <= i < |pre|
      ensures Writes(pre[i], KeyOf(DoseCode)) <==> Reads(pre[i], DoseCode)
      ensures Writes(pre[i], KeyOf(DapCode)) <==> Reads(pre[i], DapCode)
    {
      WritesIsReads(pre[i], DoseCode);
      WritesIsReads(pre[i], DapCode);
    }
    assert Lookup(map[], KeyOf(DoseCode)) == None && Lookup(map[], KeyOf(DapCode)) == None;
    SameLast(pre, DoseCode, KeyOf(DoseCode), m.dose, Lookup(r, KeyOf(DoseCode)));
    SameLast(pre, DapCode, KeyOf(DapCode), m.dap, Lookup(r, KeyOf(DapCode)));
  }

  /** Two Dose (RP) Total items, 1.0 Gy and then 2.0 Gy nested below: the later one is kept. */
  lemma ExampleLastWins()
    ensures
      var later := Item(Code("113725"), Numeric(2.0), []);
      var tree := [Item(Code("113725"), Numeric(1.0), [later])];
      Collect(tree, map[]) == Ok(map[KeyOf("113725") := 2.0])
  {
    var later := Item(Code("113725"), Numeric(2.0), []);
    var tree := [Item(Code("113725"), Numeric(1.0), [later])];
    assert "113725" in DoseCodes;
    var k := KeyOf("113725");
    assert Record(tree[0], map[]) == Ok(map[k := 1.0]);
    assert Record(later, map[k := 1.0]) == Ok(map[k := 1.0][k := 2.0]);
    assert [later][1..] == [] && tree[1..] == [];
    assert Collect([later], map[k := 1.0]) == Ok(map[k := 1.0][k := 2.0]);
    assert map[k := 1.0][k := 2.0] == map[k := 2.0];
  }
}
