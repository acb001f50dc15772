/** What the spreadsheet export and the Excel import promise together:
    a sheet written by ExportZip, read back by Import, gives one record
    per exported record whose twelve values are not all blank, in Id
    order, carrying those values trimmed, and linked to the exported
    image when there is one. */
module RoundTrip {
  import opened Text
  import opened Paths
  import opened FileStore
  import opened Records
  import opened Sheets
  import opened Photos
  import opened Import

  /** v?.Trim() */
  function TrimField(v: Option<string>): (r: Option<string>)
    ensures r.None? <==> v.None?
  {
    match v
    case None => None
    case Some(x) => Some(Trim(x))
  }

  /** The record the import makes from an exported record's row: its
      twelve values trimmed, with "" for a missing Supplier,
      OriginalName or Notes, and everything else as a fresh record. */
  function Reimported(p: PhotoRecord, created: DateTime, updated: DateTime): (r: PhotoRecord)
    ensures r.position == TrimField(p.position) && r.externalId == TrimField(p.externalId)
    ensures r.supplier == Some(TrimField(p.supplier).GetOr("")) && r.originalName == Some(TrimField(p.originalName).GetOr(""))
    ensures r.material == TrimField(p.material) && r.form == TrimField(p.form) && r.filler == TrimField(p.filler)
    ensures r.color == TrimField(p.color) && r.description == TrimField(p.description)
    ensures r.monthlyQuantity == TrimField(p.monthlyQuantity) && r.mfi == TrimField(p.mfi)
    ensures r.notes == Some(TrimField(p.notes).GetOr(""))
    ensures r.name == Some("") && r.code == "" && r.kind == Some("") && r.id == 0
    ensures r.photoFileName.None? && r.photoPath.None? && r.imagePath.None?
    ensures r.createdAt == created && r.updatedAt == updated
  {
    Fresh(created, updated).(
      position := TrimField(p.position), externalId := TrimField(p.externalId),
      supplier := Some(TrimField(p.supplier).GetOr("")), originalName := Some(TrimField(p.originalName).GetOr("")),
      material := TrimField(p.material), form := TrimField(p.form), filler := TrimField(p.filler),
      color := TrimField(p.color), description := TrimField(p.description),
      monthlyQuantity := TrimField(p.monthlyQuantity), mfi := TrimField(p.mfi),
      notes := Some(TrimField(p.notes).GetOr("")))
  }

  /** A record whose twelve exported values are all null or white space:
      its row is one the import skips. */
  predicate ExportedBlank(p: PhotoRecord) {
    forall c :: 0 <= c < 12 ==> IsBlankOpt(SheetFields(p)[c])
  }

  /** The rows (i + 2) of the first m records that are not ExportedBlank,
      in order. */
  function KeptIndicesUpTo(photos: seq<PhotoRecord>, m: nat): (r: seq<int>)
    requires m <= |photos|
    ensures forall k :: 0 <= k < |r| ==> 2 <= r[k] < m + 2 && !ExportedBlank(photos[r[k] - 2])
    ensures forall i :: 0 <= i < m && !ExportedBlank(photos[i]) ==> i + 2 in r
    decreases m
  {
    if m == 0 then []
    else KeptIndicesUpTo(photos, m - 1) + (if ExportedBlank(photos[m - 1]) then [] else [m + 1])
  }

  /** The rows (i + 2) of all records that are not ExportedBlank, in
      order. */
  function KeptIndices(photos: seq<PhotoRecord>): (r: seq<int>)
    ensures forall k :: 0 <= k < |r| ==> 2 <= r[k] < |photos| + 2 && !ExportedBlank(photos[r[k] - 2])
    ensures forall i :: 0 <= i < |photos| && !ExportedBlank(photos[i]) ==> i + 2 in r
  {
    KeptIndicesUpTo(photos, |photos|)
  }

  /** Row i + 2 of an exported sheet is blank to the import exactly when
      record i is ExportedBlank. */
  lemma BlankRowIffExportedBlank(s: Sheet, photos: seq<PhotoRecord>, webRoot: Option<string>, files: map<string, Bytes>, i: nat)
    requires ExportLayout(s, photos, webRoot, files) && i < |photos|
    ensures BlankRow(s, i + 2) <==> ExportedBlank(photos[i])
  {
    var row := i + 2;
    forall c | 1 <= c <= 12
      ensures IsBlank(CellText(s, row, c)) <==> IsBlankOpt(SheetFields(photos[i])[c - 1])
    {
      assert CellValue(s, row, c) == SheetFields(photos[row - 2])[c - 1];
    }
    if BlankRow(s, row) {
      forall c | 0 <= c < 12 ensures IsBlankOpt(SheetFields(photos[i])[c]) {
        assert IsBlank(CellText(s, row, c + 1));
      }
    } else {
      var c :| 1 <= c <= 12 && !IsBlank(CellText(s, row, c));
      assert !IsBlankOpt(SheetFields(photos[i])[c - 1]);
    }
  }

  /** A row past the used range has no values, so it is blank. */
  lemma RowPastRangeBlank(s: Sheet, n: nat, row: int)
    requires UsedRange(s, n) && row > s.endRow.value
    ensures BlankRow(s, row)
  {
    forall c | 1 <= c <= 12 ensures IsBlank(CellText(s, row, c)) {
      assert (row, c) !in s.cells;
    }
  }

  /** The rows the import keeps among rows 2 to m + 1 are those of the
      first m records that are not ExportedBlank. */
  lemma {:induction false} KeptRowsPrefix(s: Sheet, photos: seq<PhotoRecord>, webRoot: Option<string>, files: map<string, Bytes>, m: nat)
    requires ExportLayout(s, photos, webRoot, files) && m <= |photos|
    ensures KeptRows(s, m) == KeptIndicesUpTo(photos, m)
    decreases m
  {
    if m > 0 {
      KeptRowsPrefix(s, photos, webRoot, files, m - 1);
      BlankRowIffExportedBlank(s, photos, webRoot, files, m - 1);
      var tail := if BlankRow(s, m + 1) then [] else [m + 1];
      assert KeptRows(s, m) == KeptRows(s, m - 1) + tail;
      assert KeptIndicesUpTo(photos, m) == KeptIndicesUpTo(photos, m - 1) + tail;
    }
  }

  /** Blank rows past the used range add nothing to the kept rows. */
  lemma {:induction false} KeptRowsPastRange(s: Sheet, n: nat, m: nat)
    requires UsedRange(s, n) && RowCount(s) <= m
    ensures KeptRows(s, m) == KeptRows(s, RowCount(s))
    decreases m
  {
    if m > RowCount(s) {
      KeptRowsPastRange(s, n, m - 1);
      RowPastRangeBlank(s, n, m + 1);
    }
  }

  /** The import's row scan over an exported sheet keeps exactly the
      rows of the records that are not ExportedBlank, in order. */
  lemma KeptRowsOfExport(s: Sheet, photos: seq<PhotoRecord>, webRoot: Option<string>, files: map<string, Bytes>)
    requires ExportLayout(s, photos, webRoot, files)
    ensures KeptRows(s, RowCount(s)) == KeptIndices(photos)
  {
    var n := |photos|;
    assert RowCount(s) <= n;
    KeptRowsPastRange(s, n, n);
    KeptRowsPrefix(s, photos, webRoot, files, n);
  }

  /** The import reads back a record's twelve values from its row,
      trimmed. */
  lemma RowRecordOfExport(s: Sheet, photos: seq<PhotoRecord>, row: int, created: DateTime, updated: DateTime)
    requires RecordCells(s, photos) && 2 <= row < |photos| + 2
    ensures RowRecord(s, row, created, updated) == Reimported(photos[row - 2], created, updated)
  {
    forall c | 1 <= c <= 12 ensures Field(s, row, c) == TrimField(SheetFields(photos[row - 2])[c - 1]) {
      assert CellValue(s, row, c) == SheetFields(photos[row - 2])[c - 1];
    }
  }

  /** The picture the import finds for a record's row is the exported
      image: a non-empty image comes back with ".png", and a record
      exported without an image gets none. */
  lemma RowImageOfExport(s: Sheet, photos: seq<PhotoRecord>, webRoot: Option<string>, files: map<string, Bytes>,
                         media: seq<(Bytes, string)>, row: int)
    requires RowPictures(s.pictures, photos, webRoot, files) && 2 <= row < |photos| + 2
    ensures var b := ExportImage(photos[row - 2], webRoot, files);
      (b.Some? && b.value != [] ==> RowImage(s.pictures, media, row) == Some((b.value, ".png")))
      && (b.None? ==> RowImage(s.pictures, media, row).None?)
  { }

  /** Each added record is the Reimported form of the exported record
      whose row it was read from, up to its image link. */
  predicate ReimportedAll(added: seq<PhotoRecord>, rows: seq<int>, photos: seq<PhotoRecord>,
                          created: int -> DateTime, updated: int -> DateTime) {
    |added| == |rows|
    && forall k :: 0 <= k < |added| ==>
      (2 <= rows[k] < |photos| + 2
       && added[k].(photoFileName := None, imagePath := None) == Reimported(photos[rows[k] - 2], created(rows[k]), updated(rows[k])))
  }

  /** Each added record is linked to an image when its record was
      exported with a non-empty one that was saved without error, and to
      none when its record was exported without one. */
  predicate ImagesLinked(added: seq<PhotoRecord>, rows: seq<int>, photos: seq<PhotoRecord>,
                         webRoot: Option<string>, files: map<string, Bytes>, env: ImportEnv) {
    |added| == |rows|
    && forall k :: 0 <= k < |added| ==>
      (2 <= rows[k] < |photos| + 2
       && var b := ExportImage(photos[rows[k] - 2], webRoot, files);
         (b.Some? && b.value != [] && env.imageError(rows[k]).None? ==> added[k].imagePath.Some?)
         && (b.None? ==> added[k].imagePath.None?))
  }

  predicate RecordRows(rows: seq<int>, n: nat) {
    forall k :: 0 <= k < |rows| ==> 2 <= rows[k] < n + 2
  }

  /** The records of record rows are their records' Reimported forms. */
  lemma RecordsOfRows(s: Sheet, photos: seq<PhotoRecord>, media: seq<(Bytes, string)>, env: ImportEnv, rows: seq<int>)
    requires RecordCells(s, photos) && RecordRows(rows, |photos|)
    ensures ReimportedAll(ImportedRecords(s, media, env, rows), rows, photos, env.created, env.updated)
  {
    var added := ImportedRecords(s, media, env, rows);
    forall k | 0 <= k < |added|
      ensures added[k].(photoFileName := None, imagePath := None) == Reimported(photos[rows[k] - 2], env.created(rows[k]), env.updated(rows[k]))
    {
      ImportedRecordsAt(s, media, env, rows, k);
      RowRecordOfExport(s, photos, rows[k], env.created(rows[k]), env.updated(rows[k]));
    }
  }

  /** The records of record rows carry their records' exported images. */
  lemma ImagesOfRows(s: Sheet, photos: seq<PhotoRecord>, webRoot: Option<string>, files: map<string, Bytes>,
                     media: seq<(Bytes, string)>, env: ImportEnv, rows: seq<int>)
    requires RowPictures(s.pictures, photos, webRoot, files) && RecordRows(rows, |photos|)
    ensures ImagesLinked(ImportedRecords(s, media, env, rows), rows, photos, webRoot, files, env)
  {
    var added := ImportedRecords(s, media, env, rows);
    forall k | 0 <= k < |added|
      ensures var b := ExportImage(photos[rows[k] - 2], webRoot, files);
        (b.Some? && b.value != [] && env.imageError(rows[k]).None? ==> added[k].imagePath.Some?)
        && (b.None? ==> added[k].imagePath.None?)
    {
      ImportedRecordsAt(s, media, env, rows, k);
      RowImageOfExport(s, photos, webRoot, files, media, rows[k]);
    }
  }

  /** Importing an exported sheet: one record per record that is not
      ExportedBlank, in order, each carrying its twelve values trimmed
      and linked to its exported image as ImagesLinked says. */
  lemma ImportOfExport(s: Sheet, photos: seq<PhotoRecord>, webRoot: Option<string>, files: map<string, Bytes>,
                       media: seq<(Bytes, string)>, env: ImportEnv)
    requires ExportLayout(s, photos, webRoot, files)
    ensures var kept := KeptRows(s, RowCount(s));
      var added := ImportedRecords(s, media, env, kept);
      kept == KeptIndices(photos)
      && ReimportedAll(added, kept, photos, env.created, env.updated)
      && ImagesLinked(added, kept, photos, webRoot, files, env)
  {
    KeptRowsOfExport(s, photos, webRoot, files);
    var kept := KeptRows(s, RowCount(s));
    assert RecordRows(kept, |photos|);
    RecordsOfRows(s, photos, media, env, kept);
    ImagesOfRows(s, photos, webRoot, files, media, env, kept);
  }

  /** Exporting the catalogue and importing the file again: the rows of
      the records that are not ExportedBlank come back in Id order, each
      as its Reimported form, linked to its exported image. */
  lemma ExportThenImport(photos: seq<PhotoRecord>, webRoot: Option<string>, files: map<string, Bytes>, decodes: Bytes -> bool,
                         media: seq<(Bytes, string)>, env: ImportEnv)
    requires ExportRows(ByIdOrder(photos), webRoot, files, decodes).Some?
    ensures var sorted := ByIdOrder(photos);
      var s := ExportRows(sorted, webRoot, files, decodes).value;
      var kept := KeptRows(s, RowCount(s));
      kept == KeptIndices(sorted)
      && ReimportedAll(ImportedRecords(s, media, env, kept), kept, sorted, env.created, env.updated)
      && ImagesLinked(ImportedRecords(s, media, env, kept), kept, sorted, webRoot, files, env)
  {
    var sorted := ByIdOrder(photos);
    ExportRowsLayout(sorted, webRoot, files, decodes);
    ImportOfExport(ExportRows(sorted, webRoot, files, decodes).value, sorted, webRoot, files, media, env);
  }

  /** The whole Import action on a workbook whose first worksheet is the
      one ExportZip built: once the media are copied, it finishes and
      adds the Reimported forms of the exported records that are not
      ExportedBlank, in Id order. */
  lemma ImportOfExportedWorkbook(photos: seq<PhotoRecord>, w: string, files: map<string, Bytes>, decodes: Bytes -> bool,
                                 d: Disk, wb: Workbook, env: ImportEnv)
    requires ExportRows(ByIdOrder(photos), Some(w), files, decodes).Some?
    requires wb.length > 0 && wb.archive.Some? && wb.sheets.Some? && wb.sheets.value != []
    requires wb.sheets.value[0] == ExportRows(ByIdOrder(photos), Some(w), files, decodes).value
    ensures var uploads := Combine(w, "uploads");
      var saved := SaveMedia(EnsureDir(d, uploads), uploads, MediaEntries(wb.archive.value));
      var r := ImportRunOf(Some(w), d, Some(wb), env);
      var sorted := ByIdOrder(photos);
      saved.MediaSaved? ==>
        r.outcome.ImportDone?
        && ReimportedAll(r.added, KeptIndices(sorted), sorted, env.created, env.updated)
        && ImagesLinked(r.added, KeptIndices(sorted), sorted, Some(w), files, env)
  {
    var uploads := Combine(w, "uploads");
    var saved := SaveMedia(EnsureDir(d, uploads), uploads, MediaEntries(wb.archive.value));
    if saved.MediaSaved? {
      var s := wb.sheets.value[0];
      var added := ImportedRecords(s, saved.media, env, KeptRows(s, RowCount(s)));
      ImportAddsKeptRows(w, d, wb, env);
      ExportThenImport(photos, Some(w), files, decodes, saved.media, env);
      assert ImportRunOf(Some(w), d, Some(wb), env).added == added;
    }
  }
}
