/**
  The import run from the upload dialog of `main.py` (`upload_exames`).

  It walks the same files as the importer of core/dicom_parser.py, reads every SR
  document with the same content walker and offers one exam record per document
  to the store, but it keeps no counters, ignores the store's reply, and its
  metrics dictionary has a fourth slot, TempoAcq, that is added to the
  fluoroscopy time when the duration is formatted. The branch that would fill
  TempoAcq from code 113855 (Total Acquisition Time, DICOM PS3.16) is commented
  out, so the slot keeps its initial 0.0 and the stored duration is the
  fluoroscopy sum alone.
 */
module Upload {
  import opened Wrappers
  import opened DicomParser

  /** The four-slot `metrics` dictionary of the upload run. */
  datatype UploadMetrics = UploadMetrics(dose: real, dap: real, fluoro: real, acq: real)

  /** The code whose branch is commented out: Total Acquisition Time. */
  const AcqCode: string := "113855"

  /** The three slots the content walker writes. */
  function Written(m: UploadMetrics): Metrics
  {
    Metrics(m.dose, m.dap, m.fluoro)
  }

  /** The upload's `metrics` dictionary, updated in place by its walker. */
  class UploadAccumulator {
    var dose: real
    var dap: real
    var fluoro: real
    var acq: real

    function Snapshot(): UploadMetrics
      reads this
    {
      UploadMetrics(dose, dap, fluoro, acq)
    }

    constructor ()
      ensures Snapshot() == UploadMetrics(0.0, 0.0, 0.0, 0.0)
    {
      dose, dap, fluoro, acq := 0.0, 0.0, 0.0, 0.0;
    }
  }

  /** One item's own contribution to the three written slots, written into `dest`; false where reading it raises. */
  method ReadUploadItem(it: Item, dest: UploadAccumulator) returns (ok: bool)
    modifies dest
    ensures ok <==> Visit(it, old(Written(dest.Snapshot()))).Ok?
    ensures ok ==> Written(dest.Snapshot()) == Visit(it, old(Written(dest.Snapshot()))).value
    ensures dest.acq == old(dest.acq)
  {
    ok := true;
    match it.concept {
      case EmptyCodeSequence =>
        ok := false;
      case NoConcept =>
      case Code(c) =>
        match it.measured {
          case UnreadableMeasurement =>
            ok := false;
          case NoMeasurement =>
          case Numeric(v) =>
            if c == DoseCode {
              dest.dose := v;
            } else if c == DapCode {
              dest.dap := v;
            } else if c == FluoroCode {
              dest.fluoro := dest.fluoro + v;
            }
        }
    }
  }

  /**
    The upload's copy of `extrair_simples`: Dose, DAP and TempoFluoro are written exactly
    as the importer's walker writes them, and TempoAcq is never written, whatever the tree holds.
   */
  method ExtractUpload(items: seq<Item>, dest: UploadAccumulator) returns (ok: bool)
    modifies dest
    ensures ok <==> Walk(items, Written(old(dest.Snapshot()))).Ok?
    ensures ok ==> Written(dest.Snapshot()) == Walk(items, Written(old(dest.Snapshot()))).value
    ensures dest.acq == old(dest.acq)
    decreases items
  {
    ghost var start := Written(dest.Snapshot());
    var i := 0;
    while i < |items|
      invariant 0 <= i <= |items|
      invariant Walk(items, start) == Walk(items[i..], Written(dest.Snapshot()))
      invariant dest.acq == old(dest.acq)
    {
      assert items[i..][0] == items[i] && items[i..][1..] == items[i + 1..];
      var it := items[i];
      assert it in items;
      ok := ReadUploadItem(it, dest);
      if !ok {
        return;
      }
      ok := ExtractUpload(it.children, dest);
      if !ok {
        return;
      }
      i := i + 1;
    }
    assert items[i..] == [];
    ok := true;
  }

  /** The record the upload run builds: the duration formats TempoFluoro + TempoAcq. */
  function UploadRecord(ds: Dataset, today: string, m: UploadMetrics): (r: ExamRecord)
    ensures r.duration == FormatDuration(m.fluoro + m.acq)
    ensures r.doseMgy == m.dose * 1000.0 && r.dapMicro == m.dap * 1000000.0
  {
    ExamRecord(
      StudyDateIso(ds.studyDate.GetOr(""), today),
      IdentifyPhysician(ds.physicianName.GetOr("N/A")),
      ds.admittingDiagnoses.GetOr(ds.studyDescription.GetOr("NI")),
      m.dose * 1000.0,
      FormatDuration(m.fluoro + m.acq),
      m.dap * 1000000.0,
      ds.patientId.GetOr("0"),
      NormalizeSex(ds.patientSex.GetOr("NI")),
      ds.manufacturer.GetOr("Desconhecido") + "-" + ds.deviceSerial.GetOr(""))
  }

  /**
    The records one file yields: none for an unreadable file, a document of another
    modality or a content tree that raises; otherwise the record built from the walk,
    with TempoAcq still at its initial 0.0. The store's reply plays no part.
   */
  function FileRecords(f: FileEntry, today: string): seq<ExamRecord>
  {
    match f
    case Unreadable => []
    case Parsed(ds, _) =>
      if IsSr(ds) && Walk(ds.content, ZeroMetrics).Ok? then
        var w := Walk(ds.content, ZeroMetrics).value;
        [UploadRecord(ds, today, UploadMetrics(w.dose, w.dap, w.fluoro, 0.0))]
      else []
  }

  /** The records offered to the store over a run of files, in the order they are met. */
  function UploadOffered(files: seq<FileEntry>, today: string): seq<ExamRecord>
  {
    if files == [] then []
    else UploadOffered(files[..|files| - 1], today) + FileRecords(files[|files| - 1], today)
  }

  /** The body of the walk for one file; an exception skips the file. */
  method UploadFile(f: FileEntry, today: string) returns (offered: seq<ExamRecord>)
    ensures offered == FileRecords(f, today)
  {
    offered := [];
    match f {
      case Unreadable =>
      case Parsed(ds, _) =>
        if ds.modality == Some("SR") {
          var metrics := new UploadAccumulator();
          var ok := ExtractUpload(ds.content, metrics);
          if ok {
            offered := [UploadRecord(ds, today, metrics.Snapshot())];
          }
        }
    }
  }

  /** `upload_exames`: every file in turn, offering the records of the readable SR documents. */
  method UploadExams(files: seq<FileEntry>, today: string) returns (offered: seq<ExamRecord>)
    ensures offered == UploadOffered(files, today)
  {
    offered := [];
    for k := 0 to |files|
      invariant offered == UploadOffered(files[..k], today)
    {
      assert files[..k + 1][..k] == files[..k];
      var records := UploadFile(files[k], today);
      offered := offered + records;
    }
    assert files[..|files|] == files;
  }

  /** With TempoAcq at 0.0 the upload's record is the importer's record. */
  lemma UploadRecordIsCoreRecord(ds: Dataset, today: string, m: Metrics)
    ensures UploadRecord(ds, today, UploadMetrics(m.dose, m.dap, m.fluoro, 0.0)) == RecordOf(ds, today, m)
  {
    assert m.fluoro + 0.0 == m.fluoro;
  }

  /** The upload run offers exactly the records the importer of core/dicom_parser.py offers, file by file. */
  lemma {:induction false} UploadOffersCoreRecords(files: seq<FileEntry>, today: string)
    ensures UploadOffered(files, today) == Submitted(files, today)
  {
    if files != [] {
      var f := files[|files| - 1];
      UploadOffersCoreRecords(files[..|files| - 1], today);
      if f.Parsed? && IsSr(f.ds) && Walk(f.ds.content, ZeroMetrics).Ok? {
        UploadRecordIsCoreRecord(f.ds, today, Walk(f.ds.content, ZeroMetrics).value);
      }
    }
  }

  /** The stored duration of a document is the sum of its 113730 values alone, wherever they sit in the tree. */
  lemma StoredTimeIsFluoroSum(ds: Dataset, stored: bool, today: string)
    requires IsSr(ds) && Walk(ds.content, ZeroMetrics).Ok?
    ensures |FileRecords(Parsed(ds, stored), today)| == 1
    ensures FileRecords(Parsed(ds, stored), today)[0].duration
      == FormatDuration(SumOf(Preorder(ds.content), FluoroCode))
  {
    DocumentMetrics(ds.content);
    var w := Walk(ds.content, ZeroMetrics).value;
    assert w.fluoro + 0.0 == w.fluoro;
  }

  /** An item carrying a Total Acquisition Time leaves every slot as it was. */
  lemma {:induction false} AcquisitionTimeDropped(v: real, items: seq<Item>, m: Metrics)
    ensures Walk([Item(Code(AcqCode), Numeric(v), [])] + items, m) == Walk(items, m)
  {
    var acqItem := Item(Code(AcqCode), Numeric(v), []);
    var s := [acqItem] + items;
    assert s[0] == acqItem && s[1..] == items;
    assert Visit(acqItem, m) == Ok(m);
    assert Walk(acqItem.children, m) == Ok(m);
  }
}
