/** Vendor extraction from accounting-export CSV files: the header scan that
    picks the vendor column, the per-row normalisation, the per-file rules
    (suffix gate, read and open failures) and the walk that gathers every
    file's vendors into one sorted, duplicate-free list. */
module Vendors {
  import opened Results
  import opened Text
  import opened Lex

  /** A parsed CSV record: its fields in column order. */
  type Record = seq<string>

  /** Which header the vendor column was recognised by. */
  datatype VendorKind = Description | VendorName

  /** The column vendors are read from and how its cells are normalised. */
  datatype VendorField = VendorField(index: nat, kind: VendorKind)

  /** How the CSV reader's stream of records ended: cleanly, or with a parse
      error (inconsistent field count, bad quoting, ...). */
  datatype StreamEnd = Eof | ReadError

  /** What opening a path gives: nothing, or the records the reader returns
      before the stream ends. */
  datatype FileContents = Unreadable | Opened(records: seq<Record>, end: StreamEnd)

  /** One visit of the directory walk: the walk itself failed on this entry,
      or it hands over a path together with what opening it would give. */
  datatype Entry = WalkError | Visit(path: string, contents: FileContents)

  /** Why a file, and with it the whole run, was abandoned. `RowTooShort` is
      the run-time panic of indexing a record past its end. */
  datatype Failure = WalkFailed | OpenFailed | ReadFailed | RowTooShort(row: nat, index: nat)

  /** The exact header text each kind is recognised by. */
  function Label(kind: VendorKind): string {
    match kind
    case Description => "Description"
    case VendorName => "Vendor Name"
  }

  /** The kind a header cell names, if it names one: exact, case-sensitive
      comparison with no trimming. */
  function KindOf(cell: string): (r: Option<VendorKind>)
    ensures r.Some? <==> cell == Label(Description) || cell == Label(VendorName)
    ensures r.Some? ==> Label(r.value) == cell
  {
    if cell == "Description" then Some(Description)
    else if cell == "Vendor Name" then Some(VendorName)
    else None
  }

  /** Reading a kind's label back gives the kind, and the two labels differ. */
  lemma LabelRoundTrip(kind: VendorKind)
    ensures KindOf(Label(kind)) == Some(kind)
    ensures Label(Description) != Label(VendorName)
  {
  }

  /** No cell of `header` in columns `from` up to (not including) `to` is a recognised header. */
  predicate NoLabelIn(header: Record, from: nat, to: nat)
    requires from <= to <= |header|
  {
    forall j :: from <= j < to ==> KindOf(header[j]).None?
  }

  /** `f` names a column of `header` whose text is `f`'s label, and no later
      column is a recognised header. */
  predicate IsLastLabel(header: Record, f: VendorField) {
    && f.index < |header|
    && header[f.index] == Label(f.kind)
    && NoLabelIn(header, f.index + 1, |header|)
  }

  /** The header scan from `column` on, given what columns before it gave:
      every recognised cell replaces the field found so far. */
  function ScanHeader(header: Record, column: nat, found: Option<VendorField>): (r: Option<VendorField>)
    requires column <= |header|
    requires found.None? ==> NoLabelIn(header, 0, column)
    requires found.Some? ==> && found.value.index < column
                             && header[found.value.index] == Label(found.value.kind)
                             && NoLabelIn(header, found.value.index + 1, column)
    ensures r.None? <==> NoLabelIn(header, 0, |header|)
    ensures r.Some? ==> IsLastLabel(header, r.value)
    decreases |header| - column
  {
    if column == |header| then found
    else
      var next := match KindOf(header[column])
        case Some(kind) => Some(VendorField(column, kind))
        case None => found;
      ScanHeader(header, column + 1, next)
  }

  /** The vendor column named by row 0: the last cell that reads exactly
      "Description" or "Vendor Name", or none when no cell does. */
  function DetectField(header: Record): (r: Option<VendorField>)
    ensures r.None? <==> NoLabelIn(header, 0, |header|)
    ensures r.Some? ==> IsLastLabel(header, r.value)
  {
    ScanHeader(header, 0, None)
  }

  /** The converse of `DetectField`'s contract: the last labelled column is
      the field detected. */
  lemma LastLabelWins(header: Record, f: VendorField)
    requires IsLastLabel(header, f)
    ensures DetectField(header) == Some(f)
  {
  }

  /** The vendor a data row yields (Go's `ParseVendor`): the cell in the
      vendor column, lowercased, and for a Description column only the part
      before the first comma. */
  function ParseVendor(f: VendorField, rec: Record): (r: string)
    requires f.index < |rec|
    ensures IsLower(r)
    ensures f.kind == VendorName ==> r == ToLower(rec[f.index])
    ensures f.kind == Description ==>
      var cell := ToLower(rec[f.index]);
      && r <= cell
      && ',' !in r
      && (',' !in rec[f.index] ==> r == cell)
      && (',' in rec[f.index] ==> |r| < |cell| && cell[|r|] == ',')
  {
    var value := rec[f.index];
    match f.kind
    case Description =>
      var lowered := ToLower(value);
      FirstPieceIsPrefix(lowered, ',');
      ToLowerKeepsSeparator(value, ',');
      var r := Split(lowered, ',')[0];
      assert r <= lowered;
      assert forall i :: 0 <= i < |r| ==> r[i] == lowered[i];
      r
    case VendorName => ToLower(value)
  }

  /** Normalising a vendor again changes nothing: every vendor is already lower case. */
  lemma VendorIsNormalised(f: VendorField, rec: Record)
    requires f.index < |rec|
    ensures ToLower(ParseVendor(f, rec)) == ParseVendor(f, rec)
  {
  }

  /** Every record of `rows` reaches column `index`. */
  predicate AllReach(rows: seq<Record>, index: nat) {
    forall i :: 0 <= i < |rows| ==> index < |rows[i]|
  }

  /** The data rows, whose first one is record number `row`, each mapped to
      its vendor in order; the first row that does not reach the vendor
      column aborts with `RowTooShort`. */
  function ParseRows(f: VendorField, rows: seq<Record>, row: nat): (r: Result<seq<string>, Failure>)
    ensures r.Ok? <==> AllReach(rows, f.index)
    ensures r.Ok? ==> |r.value| == |rows|
    ensures r.Ok? ==> forall i :: 0 <= i < |rows| ==> f.index < |rows[i]| && r.value[i] == ParseVendor(f, rows[i])
    ensures r.Err? ==> r.error.RowTooShort? && r.error.index == f.index
                       && row <= r.error.row < row + |rows|
                       && |rows[r.error.row - row]| <= f.index
                       && forall i :: 0 <= i < r.error.row - row ==> f.index < |rows[i]|
    decreases |rows|
  {
    if |rows| == 0 then Ok([])
    else if f.index >= |rows[0]| then Err(RowTooShort(row, f.index))
    else
      match ParseRows(f, rows[1..], row + 1)
      case Err(e) =>
        assert rows[e.row - row] == rows[1..][e.row - row - 1];
        assert forall i :: 1 <= i < e.row - row ==> rows[i] == rows[1..][i - 1];
        Err(e)
      case Ok(vs) =>
        assert forall i :: 1 <= i < |rows| ==> rows[i] == rows[1..][i - 1];
        Ok([ParseVendor(f, rows[0])] + vs)
  }

  /** The vendors of one opened CSV file (the read loop of `checkFileForVendors`).
      An empty file yields nothing; a header with no recognised column yields
      nothing and stops reading there; otherwise each later record yields one
      vendor, and a reader error anywhere aborts the file. */
  function ReadVendors(records: seq<Record>, end: StreamEnd): (r: Result<seq<string>, Failure>)
    ensures |records| == 0 ==> (r.Ok? <==> end == Eof) && (r.Ok? ==> r.value == [])
    ensures |records| > 0 && DetectField(records[0]).None? ==> r == Ok([])
    ensures |records| > 0 && DetectField(records[0]).Some? ==>
      var f := DetectField(records[0]).value;
      (r.Ok? <==> AllReach(records[1..], f.index) && end == Eof)
      && (r.Ok? ==> |r.value| == |records| - 1
                    && forall i :: 1 <= i < |records| ==> r.value[i - 1] == ParseVendor(f, records[i]))
    ensures |records| > 0 && DetectField(records[0]).Some? ==>
      var f := DetectField(records[0]).value;
      && (!AllReach(records[1..], f.index) ==>
            && r.Err? && r.error.RowTooShort? && r.error.index == f.index
            && 1 <= r.error.row < |records|
            && |records[r.error.row]| <= f.index
            && (forall i :: 1 <= i < r.error.row ==> f.index < |records[i]|))
      && (AllReach(records[1..], f.index) && end == ReadError ==> r == Err(ReadFailed))
    ensures |records| == 0 && end == ReadError ==> r == Err(ReadFailed)
    ensures r.Err? ==> r.error == ReadFailed || r.error.RowTooShort?
    ensures r.Err? && r.error.RowTooShort? ==> |records| > 0 && DetectField(records[0]).Some?
    ensures r.Ok? ==> forall v :: v in r.value ==> IsLower(v)
  {
    if |records| == 0 then
      if end == Eof then Ok([]) else Err(ReadFailed)
    else
      match DetectField(records[0])
      case None => Ok([])
      case Some(f) =>
        match ParseRows(f, records[1..], 1)
        case Err(e) =>
          assert records[e.row] == records[1..][e.row - 1];
          assert forall i :: 1 <= i < e.row ==> records[i] == records[1..][i - 1];
          Err(e)
        case Ok(vs) =>
          assert forall i :: 1 <= i < |records| ==> records[i] == records[1..][i - 1];
          if end == Eof then Ok(vs) else Err(ReadFailed)
  }

  /** The vendors of one walked path (Go's `checkFileForVendors`): a path not
      ending in ".csv" yields nothing and is never opened; otherwise an open
      failure aborts, and an opened file is read. */
  function CheckFileForVendors(path: string, contents: FileContents): (r: Result<seq<string>, Failure>)
    ensures !HasSuffix(path, ".csv") ==> r == Ok([])
    ensures HasSuffix(path, ".csv") && contents.Unreadable? ==> r == Err(OpenFailed)
    ensures HasSuffix(path, ".csv") && contents.Opened? ==> r == ReadVendors(contents.records, contents.end)
    ensures r.Ok? ==> forall v :: v in r.value ==> IsLower(v)
  {
    if !HasSuffix(path, ".csv") then Ok([])
    else match contents
      case Unreadable => Err(OpenFailed)
      case Opened(records, end) => ReadVendors(records, end)
  }

  /** The walk callback of `main` for one entry: a walk error aborts,
      otherwise the entry's path is checked for vendors. */
  function VisitEntry(e: Entry): (r: Result<seq<string>, Failure>)
    ensures r.Err? <==> e.WalkError? || (HasSuffix(e.path, ".csv") && (e.contents.Unreadable? ||
                                          ReadVendors(e.contents.records, e.contents.end).Err?))
    ensures e.WalkError? ==> r == Err(WalkFailed)
    ensures e.Visit? && !HasSuffix(e.path, ".csv") ==> r == Ok([])
    ensures e.Visit? && HasSuffix(e.path, ".csv") && e.contents.Unreadable? ==> r == Err(OpenFailed)
    ensures e.Visit? && HasSuffix(e.path, ".csv") && e.contents.Opened? ==>
      r == ReadVendors(e.contents.records, e.contents.end)
    ensures r.Ok? ==> forall v :: v in r.value ==> IsLower(v)
  {
    match e
    case WalkError => Err(WalkFailed)
    case Visit(path, contents) => CheckFileForVendors(path, contents)
  }

  /** Every entry's vendor list in walk order, or the failure of the first entry that fails. */
  function WalkEntries(entries: seq<Entry>): (r: Result<seq<seq<string>>, Failure>)
    ensures r.Ok? ==> |r.value| == |entries|
                      && forall i :: 0 <= i < |entries| ==> VisitEntry(entries[i]) == Ok(r.value[i])
    ensures r.Err? ==> exists k :: 0 <= k < |entries| && VisitEntry(entries[k]) == Err(r.error)
                                  && forall i :: 0 <= i < k ==> VisitEntry(entries[i]).Ok?
    decreases |entries|
  {
    if |entries| == 0 then Ok([])
    else match VisitEntry(entries[0])
      case Err(e) => Err(e)
      case Ok(vs) =>
        match WalkEntries(entries[1..])
        case Err(e) =>
          ghost var k :| 0 <= k < |entries[1..]| && VisitEntry(entries[1..][k]) == Err(e)
                         && forall i :: 0 <= i < k ==> VisitEntry(entries[1..][i]).Ok?;
          assert VisitEntry(entries[k + 1]) == Err(e);
          assert forall i :: 1 <= i < k + 1 ==> entries[i] == entries[1..][i - 1];
          Err(e)
        case Ok(rest) =>
          assert forall i :: 1 <= i < |entries| ==> entries[i] == entries[1..][i - 1];
          Ok([vs] + rest)
  }

  /** All vendor lists laid end to end: the order `main` inserts them into its set. */
  function Concat(lists: seq<seq<string>>): (r: seq<string>)
    ensures forall v :: v in r <==> exists i :: 0 <= i < |lists| && v in lists[i]
    decreases |lists|
  {
    if |lists| == 0 then []
    else
      var rest := Concat(lists[1..]);
      assert forall i :: 1 <= i < |lists| ==> lists[i] == lists[1..][i - 1];
      lists[0] + rest
  }

  /** The output of a run (Go's `main`): the sorted, duplicate-free union of
      every entry's vendors, or the first failure, in which case nothing is
      printed. */
  function Run(entries: seq<Entry>): (r: Result<seq<string>, Failure>)
    ensures r.Ok? ==> StrictlySorted(r.value)
    ensures r.Ok? ==> forall v :: v in r.value <==>
      exists i :: 0 <= i < |entries| && VisitEntry(entries[i]).Ok? && v in VisitEntry(entries[i]).value
    ensures r.Ok? ==> forall v :: v in r.value ==> IsLower(v)
    ensures r.Ok? <==> forall i :: 0 <= i < |entries| ==> VisitEntry(entries[i]).Ok?
    ensures r.Err? ==> exists k :: 0 <= k < |entries| && VisitEntry(entries[k]) == Err(r.error)
                                  && forall i :: 0 <= i < k ==> VisitEntry(entries[i]).Ok?
  {
    match WalkEntries(entries)
    case Err(e) => Err(e)
    case Ok(lists) =>
      var out := SortUnique(Concat(lists));
      assert forall v :: v in out ==> IsLower(v) by {
        forall v | v in out
          ensures IsLower(v)
        {
          var i :| 0 <= i < |lists| && v in lists[i];
          assert VisitEntry(entries[i]) == Ok(lists[i]);
        }
      }
      Ok(out)
  }
}

/** Properties that relate several operations of the extractor. */
module VendorFacts {
  import opened Results
  import opened Text
  import opened Lex
  import opened Vendors

  /** Whether a path is opened at all depends on its suffix alone: a path
      without ".csv" yields the same empty list whatever the file holds. */
  lemma NonCsvContentIgnored(path: string, a: FileContents, b: FileContents)
    requires !HasSuffix(path, ".csv")
    ensures CheckFileForVendors(path, a) == CheckFileForVendors(path, b) == Ok([])
  {
  }

  /** When every data record has as many fields as the header (the CSV
      reader's default field-count rule), no row can be too short. */
  lemma UniformRowsNeverTooShort(records: seq<Record>, end: StreamEnd)
    requires forall i :: 0 <= i < |records| ==> |records[i]| == |records[0]|
    ensures var r := ReadVendors(records, end);
      r.Err? ==> r.error == ReadFailed
  {
  }

  /** `main` sorts the keys of its vendor map in whatever order the map
      yields them; every such order gives the same output. */
  lemma MapOrderIrrelevant(entries: seq<Entry>, keys: seq<string>)
    requires Run(entries).Ok?
    requires forall v :: v in keys <==> v in Run(entries).value
    ensures SortUnique(keys) == Run(entries).value
  {
    SortedListingUnique(SortUnique(keys), Run(entries).value);
  }

  /** A Description vendor is the lowercased cell cut at its first comma, or
      the whole lowercased cell when it has none. */
  lemma DescriptionCutsAtFirstComma(f: VendorField, rec: Record)
    requires f.index < |rec| && f.kind == Description
    ensures var cell := ToLower(rec[f.index]);
      var k := IndexOf(cell, ',');
      ParseVendor(f, rec) == if k == -1 then cell else cell[..k]
  {
  }

  /** Vendor names differing only in ASCII case collapse to one output. */
  lemma CaseVariantsCollapse(f: VendorField, a: Record, b: Record)
    requires f.index < |a| && f.index < |b|
    requires ToLower(a[f.index]) == ToLower(b[f.index])
    ensures ParseVendor(f, a) == ParseVendor(f, b)
  {
  }
}
