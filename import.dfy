/** The spreadsheet import (PhotosController.Import): the media files of
    the uploaded .xlsx container are copied into the uploads folder, then
    every non-blank row of the first worksheet becomes a PhotoRecord, with
    the picture anchored in its photo cell saved as its image. */
module Import {
  import opened Text
  import opened Paths
  import opened FileStore
  import opened Zip
  import opened Records
  import opened Sheets

  const NoDataMessage := "Nahrajte .xlsx soubor s daty."
  const NoSheetMessage := "Soubor neobsahuje žádný list."

  /** The posted excelFile: its length, the ZIP container its bytes hold
      (None when ZipArchive cannot read them) and the worksheets EPPlus
      finds in the package (None when ExcelPackage cannot open it). */
  datatype Workbook = Workbook(length: nat, archive: Option<Archive>, sheets: Option<seq<Sheet>>)

  /** What the import takes from outside: the two readings of the clock
      (DateTime.UtcNow) for each row's CreatedAt and UpdatedAt, the GUID
      drawn for a row's image, the message of the exception writing
      a row's image throws (None when the write succeeds), and the message
      of an exception that reaches the outer catch. */
  datatype ImportEnv = ImportEnv(created: int -> DateTime, updated: int -> DateTime, guid: int -> string, imageError: int -> Option<string>, failure: string)

  function SheetSummary(s: Sheet, mediaCount: nat): string {
    "Worksheet '" + s.name + "': drawings=" + NatToString(s.drawings) + ", pictures=" + NatToString(|s.pictures|)
    + ", mediaFiles=" + NatToString(mediaCount)
  }

  function FailureWarning(msg: string): string {
    "Exception při čtení souboru: " + msg
  }

  function ImageWarning(row: int, msg: string): string {
    "Řádek " + IntToString(row) + ": chyba ukládání obrázku - " + msg
  }

  function ResultLine(count: nat, warnings: nat): string {
    NatToString(count) + " záznamů importováno. Varování: " + NatToString(warnings)
  }

  // --------------------------------------------------------------- media

  /** An entry under "xl/media/", compared ignoring case. */
  predicate IsMedia(e: Entry) {
    StartsWithIgnoreCase(e.name, "xl/media/")
  }

  /** Where(e => IsMedia(e)), in archive order. */
  function MediaFilter(a: Archive): (r: Archive)
    ensures forall k :: 0 <= k < |r| ==> IsMedia(r[k])
    ensures forall e :: multiset(r)[e] == if IsMedia(e) then multiset(a)[e] else 0
    decreases |a|
  {
    if a == [] then []
    else
      var rest := MediaFilter(a[1..]);
      var r := if IsMedia(a[0]) then [a[0]] + rest else rest;
      FilterCons(a, IsMedia, rest, r);
      r
  }

  /** The first entry is kept in front of the filtered rest exactly when
      it passes the filter. */
  lemma FilterCons(a: Archive, keep: Entry -> bool, rest: Archive, r: Archive)
    requires a != []
    requires forall k :: 0 <= k < |rest| ==> keep(rest[k])
    requires forall e :: multiset(rest)[e] == if keep(e) then multiset(a[1..])[e] else 0
    requires r == if keep(a[0]) then [a[0]] + rest else rest
    ensures forall k :: 0 <= k < |r| ==> keep(r[k])
    ensures forall e :: multiset(r)[e] == if keep(e) then multiset(a)[e] else 0
  {
    assert a == [a[0]] + a[1..];
    assert multiset(a) == multiset{a[0]} + multiset(a[1..]);
    if keep(a[0]) {
      assert multiset(r) == multiset{a[0]} + multiset(rest);
    }
  }

  /** Entries in ordinal order of their names. */
  predicate NamesAscending(a: Archive) {
    forall i, j :: 0 <= i < j < |a| ==> !Less(a[j].name, a[i].name)
  }

  function InsertByName(x: Entry, a: Archive): (r: Archive)
    requires NamesAscending(a)
    ensures multiset(r) == multiset(a) + multiset{x} && NamesAscending(r)
    decreases |a|
  {
    if a == [] then [x]
    else if !Less(a[0].name, x.name) then
      NamesCons(x, a);
      [x] + a
    else
      var rest := InsertByName(x, a[1..]);
      assert a == [a[0]] + a[1..];
      NameBelowRest(x, a, rest);
      NamesCons(a[0], rest);
      [a[0]] + rest
  }

  /** Ordinal order's complement is transitive. */
  lemma NotLessTransitive(p: string, q: string, t: string)
    requires !Less(p, q) && !Less(q, t)
    ensures !Less(p, t)
  {
    if Less(p, t) {
      LessTotal(p, q);
      if Less(q, p) {
        LessTransitive(q, p, t);
      }
    }
  }

  /** A head whose name is not above the first name keeps the names in
      order. */
  lemma NamesCons(h: Entry, a: Archive)
    requires NamesAscending(a)
    requires a != [] ==> !Less(a[0].name, h.name)
    ensures NamesAscending([h] + a)
  {
    var r := [h] + a;
    forall i, j | 0 <= i < j < |r| ensures !Less(r[j].name, r[i].name) {
      if i == 0 {
        assert r[j] == a[j - 1];
        if j > 1 { NotLessTransitive(a[j - 1].name, a[0].name, h.name); }
      } else {
        assert r[i] == a[i - 1] && r[j] == a[j - 1];
      }
    }
  }

  /** Inserting past the head puts only names at or above it after it. */
  lemma NameBelowRest(x: Entry, a: Archive, rest: Archive)
    requires a != [] && NamesAscending(a) && Less(a[0].name, x.name)
    requires multiset(rest) == multiset(a[1..]) + multiset{x}
    ensures rest != [] ==> !Less(rest[0].name, a[0].name)
  {
    if rest != [] {
      var y := rest[0];
      assert y in multiset(rest);
      if y == x {
        LessAsymmetric(a[0].name, x.name);
      } else {
        assert y in multiset(a[1..]);
        var k :| 0 <= k < |a[1..]| && a[1..][k] == y;
        assert a[k + 1] == y;
      }
    }
  }

  /** OrderBy(e => e.FullName), with the names compared ordinally; the
      culture-sensitive comparer OrderBy uses by default is not modelled. */
  function SortByName(a: Archive): (r: Archive)
    ensures multiset(r) == multiset(a) && NamesAscending(r)
    decreases |a|
  {
    if a == [] then []
    else
      assert a == [a[0]] + a[1..];
      InsertByName(a[0], SortByName(a[1..]))
  }

  /** The media entries in the order the import saves them. */
  function MediaEntries(a: Archive): (r: Archive)
    ensures NamesAscending(r) && forall k :: 0 <= k < |r| ==> IsMedia(r[k])
    ensures forall e :: multiset(r)[e] == if IsMedia(e) then multiset(a)[e] else 0
  {
    var m := MediaFilter(a);
    var r := SortByName(m);
    forall k | 0 <= k < |r| ensures IsMedia(r[k]) {
      assert r[k] in multiset(m);
    }
    r
  }

  /** The media list: each entry's bytes with its file name. A media
      entry whose name has no file part makes Path.Combine give the
      uploads folder itself, which WriteAllBytes refuses. */
  datatype MediaRun = MediaSaved(disk: Disk, media: seq<(Bytes, string)>) | MediaFailed(disk: Disk)

  function SaveMedia(d: Disk, uploads: string, entries: Archive): (r: MediaRun)
    ensures r.MediaSaved? ==> |r.media| == |entries|
    decreases |entries|
  {
    if entries == [] then MediaSaved(d, [])
    else
      var n := |entries| - 1;
      match SaveMedia(d, uploads, entries[..n])
      case MediaFailed(d1) => MediaFailed(d1)
      case MediaSaved(d1, media) =>
        var e := entries[n];
        var name := GetFileName(e.name);
        if name == "" then MediaFailed(d1)
        else MediaSaved(WriteFile(d1, Combine(uploads, name), e.data), media + [(e.data, name)])
  }

  /** The media list of the entries: each entry's bytes with its file
      name, in order. */
  predicate MediaOf(media: seq<(Bytes, string)>, entries: Archive) {
    |media| == |entries| && forall k :: 0 <= k < |entries| ==> media[k] == (entries[k].data, GetFileName(entries[k].name))
  }

  lemma MediaOfLast(m0: seq<(Bytes, string)>, entries: Archive)
    requires entries != [] && MediaOf(m0, entries[..|entries| - 1])
    ensures var e := entries[|entries| - 1]; MediaOf(m0 + [(e.data, GetFileName(e.name))], entries)
  {
    var n := |entries| - 1;
    var e := entries[n];
    var m := m0 + [(e.data, GetFileName(e.name))];
    forall k | 0 <= k < n ensures m[k] == (entries[k].data, GetFileName(entries[k].name)) {
      assert m[k] == m0[k];
      assert entries[..n][k] == entries[k];
    }
  }

  lemma SaveMediaLastList(d: Disk, uploads: string, entries: Archive)
    requires entries != [] && SaveMedia(d, uploads, entries).MediaSaved?
    ensures var n := |entries| - 1;
      SaveMedia(d, uploads, entries[..n]).MediaSaved?
      && SaveMedia(d, uploads, entries).media
         == SaveMedia(d, uploads, entries[..n]).media + [(entries[n].data, GetFileName(entries[n].name))]
  {
  }

  /** Each saved media entry contributes its bytes and its file name, in
      order. */
  lemma {:induction false} SaveMediaList(d: Disk, uploads: string, entries: Archive)
    requires SaveMedia(d, uploads, entries).MediaSaved?
    ensures MediaOf(SaveMedia(d, uploads, entries).media, entries)
    decreases |entries|
  {
    if entries != [] {
      SaveMediaLastList(d, uploads, entries);
      SaveMediaList(d, uploads, entries[..|entries| - 1]);
      MediaOfLast(SaveMedia(d, uploads, entries[..|entries| - 1]).media, entries);
    }
  }

  /** The bytes of the last entry whose file name is saved at p, if any. */
  function LastMediaAt(uploads: string, entries: Archive, p: string): Option<Bytes>
    decreases |entries|
  {
    if entries == [] then None
    else
      var e := entries[|entries| - 1];
      if Combine(uploads, GetFileName(e.name)) == p then Some(e.data)
      else LastMediaAt(uploads, entries[..|entries| - 1], p)
  }

  /** A completed media copy leaves at uploads\<file name> the bytes of
      the last entry with that file name, adds no directory, and changes
      no other path. */
  lemma {:induction false} SaveMediaDisk(d: Disk, uploads: string, entries: Archive, p: string)
    requires SaveMedia(d, uploads, entries).MediaSaved?
    ensures var r := SaveMedia(d, uploads, entries).disk;
      r.dirs == d.dirs
      && (LastMediaAt(uploads, entries, p).Some? ==> p in r.files && r.files[p] == LastMediaAt(uploads, entries, p).value)
      && (LastMediaAt(uploads, entries, p).None? ==> SameAt(r, d, p))
    decreases |entries|
  {
    if entries != [] {
      SaveMediaLastList(d, uploads, entries);
      SaveMediaDisk(d, uploads, entries[..|entries| - 1], p);
    }
  }

  /** Every entry's name has a file part. */
  predicate AllNamed(entries: Archive) {
    forall k :: 0 <= k < |entries| ==> GetFileName(entries[k].name) != ""
  }

  /** A property holds for every entry exactly when it holds for all
      but the last and for the last. */
  lemma ForallLast(a: Archive, init: Archive, ok: Entry -> bool)
    requires a != [] && init == a[..|a| - 1]
    ensures (forall k :: 0 <= k < |a| ==> ok(a[k])) <==>
      (forall k :: 0 <= k < |init| ==> ok(init[k])) && ok(a[|a| - 1])
  {
    assert forall k :: 0 <= k < |init| ==> init[k] == a[k];
  }

  lemma AllNamedLast(entries: Archive)
    requires entries != []
    ensures AllNamed(entries) <==>
      AllNamed(entries[..|entries| - 1]) && GetFileName(entries[|entries| - 1].name) != ""
  {
    ForallLast(entries, entries[..|entries| - 1], (e: Entry) => GetFileName(e.name) != "");
  }

  lemma SaveMediaLast(d: Disk, uploads: string, entries: Archive)
    requires entries != []
    ensures SaveMedia(d, uploads, entries).MediaSaved? <==>
      SaveMedia(d, uploads, entries[..|entries| - 1]).MediaSaved? && GetFileName(entries[|entries| - 1].name) != ""
  {
  }

  /** Saving the media fails exactly when some media entry's name has no
      file part. */
  lemma {:induction false} SaveMediaSucceeds(d: Disk, uploads: string, entries: Archive)
    ensures SaveMedia(d, uploads, entries).MediaSaved? <==> AllNamed(entries)
    decreases |entries|
  {
    if entries != [] {
      SaveMediaSucceeds(d, uploads, entries[..|entries| - 1]);
      SaveMediaLast(d, uploads, entries);
      AllNamedLast(entries);
    }
  }

  lemma {:induction false} SaveMediaFailed(d: Disk, uploads: string, entries: Archive, i: nat)
    requires i <= |entries| && SaveMedia(d, uploads, entries[..i]).MediaFailed?
    ensures SaveMedia(d, uploads, entries) == SaveMedia(d, uploads, entries[..i])
    decreases |entries| - i
  {
    if i < |entries| {
      assert entries[..i + 1][..i] == entries[..i];
      SaveMediaFailed(d, uploads, entries, i + 1);
    } else {
      assert entries[..i] == entries;
    }
  }

  lemma SaveMediaStep(d: Disk, uploads: string, entries: Archive, i: nat)
    requires i < |entries| && SaveMedia(d, uploads, entries[..i]).MediaSaved?
    ensures var pre := SaveMedia(d, uploads, entries[..i]);
      var name := GetFileName(entries[i].name);
      SaveMedia(d, uploads, entries[..i + 1])
        == if name == "" then MediaFailed(pre.disk)
           else MediaSaved(WriteFile(pre.disk, Combine(uploads, name), entries[i].data), pre.media + [(entries[i].data, name)])
  {
    assert entries[..i + 1][..i] == entries[..i];
  }

  /** The media loop. */
  method SaveMediaFiles(fs: FileSystem, uploads: string, entries: Archive) returns (ok: bool, media: seq<(Bytes, string)>)
    modifies fs
    ensures ok <==> SaveMedia(old(fs.View()), uploads, entries).MediaSaved?
    ensures fs.View() == SaveMedia(old(fs.View()), uploads, entries).disk
    ensures ok ==> media == SaveMedia(old(fs.View()), uploads, entries).media
  {
    ghost var d := fs.View();
    media := [];
    for i := 0 to |entries|
      invariant SaveMedia(d, uploads, entries[..i]) == MediaSaved(fs.View(), media)
    {
      SaveMediaStep(d, uploads, entries, i);
      var name := GetFileName(entries[i].name);
      if name == "" {
        SaveMediaFailed(d, uploads, entries, i + 1);
        return false, media;
      }
      fs.WriteAllBytes(Combine(uploads, name), entries[i].data);
      media := media + [(entries[i].data, name)];
    }
    assert entries[..|entries|] == entries;
    ok := true;
  }

  // ---------------------------------------------------------------- rows

  /** Cells[row, col].GetValue<string>()?.Trim() */
  function Field(s: Sheet, row: int, col: int): Option<string> {
    match CellValue(s, row, col)
    case None => None
    case Some(v) => Some(Trim(v))
  }

  /** The record a row becomes before its picture is looked at: columns
      1 to 12 trimmed, Supplier, OriginalName and Notes "" for an empty
      cell, Name, Code and Type left at their initial "". */
  function RowRecord(s: Sheet, row: int, created: DateTime, updated: DateTime): PhotoRecord {
    Fresh(created, updated).(
      position := Field(s, row, 1), externalId := Field(s, row, 2),
      supplier := Some(Field(s, row, 3).GetOr("")), originalName := Some(Field(s, row, 4).GetOr("")),
      material := Field(s, row, 5), form := Field(s, row, 6), filler := Field(s, row, 7),
      color := Field(s, row, 8), description := Field(s, row, 9), monthlyQuantity := Field(s, row, 10),
      mfi := Field(s, row, 11), notes := Some(Field(s, row, 12).GetOr("")))
  }

  /** A row whose first twelve cells all show only white space. */
  predicate BlankRow(s: Sheet, row: int) {
    forall c :: 1 <= c <= 12 ==> IsBlank(CellText(s, row, c))
  }

  /** The rowEmpty loop. */
  method IsRowEmpty(s: Sheet, row: int) returns (empty: bool)
    ensures empty <==> BlankRow(s, row)
  {
    empty := true;
    var c := 1;
    while c <= 12
      invariant 1 <= c <= 13
      invariant forall c' :: 1 <= c' < c ==> IsBlank(CellText(s, row, c'))
    {
      if !IsBlank(CellText(s, row, c)) {
        empty := false;
        break;
      }
      c := c + 1;
    }
  }

  /** The image bytes and extension the import saves for a row: the
      bytes of the first picture anchored in the row's photo cell, with
      ".png"; when it gives none, the media file at that picture's index
      in drawing order, with that file's extension; nothing when neither
      holds any bytes. */
  function RowImage(pics: seq<Picture>, media: seq<(Bytes, string)>, row: int): (r: Option<(Bytes, string)>)
    ensures r.Some? ==> r.value.0 != [] && FirstPicture(pics, row).Some?
    ensures FirstPicture(pics, row).None? ==> r.None?
    ensures FirstPicture(pics, row).Some? && pics[FirstPicture(pics, row).value].image.Some?
            && pics[FirstPicture(pics, row).value].image.value != []
            ==> r == Some((pics[FirstPicture(pics, row).value].image.value, ".png"))
    ensures FirstPicture(pics, row).Some? ==>
      var k := FirstPicture(pics, row).value;
      (pics[k].image.None? || pics[k].image.value == []) ==>
        r == if k < |media| && media[k].0 != [] then Some((media[k].0, GetExtension(media[k].1))) else None
  {
    match FirstPicture(pics, row)
    case None => None
    case Some(k) =>
      var own := pics[k].image;
      if own.Some? && own.value != [] then Some((own.value, ".png"))
      else if k < |media| && media[k].0 != [] then Some((media[k].0, GetExtension(media[k].1)))
      else None
  }

  /** The record the import adds for a non-blank row: RowRecord, linked
      to its saved image when there is one and writing it succeeded. */
  function ImportedRecord(s: Sheet, media: seq<(Bytes, string)>, env: ImportEnv, row: int): (r: PhotoRecord)
    ensures r.(photoFileName := None, imagePath := None) == RowRecord(s, row, env.created(row), env.updated(row))
    ensures r.imagePath.Some? <==> RowImage(s.pictures, media, row).Some? && env.imageError(row).None?
    ensures r.imagePath.Some? ==> var name := ImageName(env.guid(row), RowImage(s.pictures, media, row).value.1);
      r.photoFileName == Some(name) && r.imagePath == Some(UploadWebPath(name))
    ensures r.imagePath.None? ==> r.photoFileName.None?
  {
    var rec := RowRecord(s, row, env.created(row), env.updated(row));
    match RowImage(s.pictures, media, row)
    case None => rec
    case Some(img) =>
      if env.imageError(row).Some? then rec
      else
        var name := ImageName(env.guid(row), img.1);
        rec.(photoFileName := Some(name), imagePath := Some(UploadWebPath(name)))
  }

  function RowWarnings(s: Sheet, media: seq<(Bytes, string)>, env: ImportEnv, row: int): seq<string> {
    if RowImage(s.pictures, media, row).Some? && env.imageError(row).Some? then [ImageWarning(row, env.imageError(row).value)]
    else []
  }

  function RowDisk(d: Disk, s: Sheet, media: seq<(Bytes, string)>, uploads: string, env: ImportEnv, row: int): Disk {
    match RowImage(s.pictures, media, row)
    case None => d
    case Some(img) =>
      if env.imageError(row).Some? then d
      else WriteFile(d, Combine(uploads, ImageName(env.guid(row), img.1)), img.0)
  }

  /** A record linked to an image has its file written into the uploads
      folder under its PhotoFileName, with the row's image bytes, and
      nothing else changes; an unlinked record writes nothing. */
  lemma LinkedImageWritten(d: Disk, s: Sheet, media: seq<(Bytes, string)>, uploads: string, env: ImportEnv, row: int)
    ensures var rec := ImportedRecord(s, media, env, row);
      var r := RowDisk(d, s, media, uploads, env, row);
      (rec.photoFileName.Some? ==>
         var p := Combine(uploads, rec.photoFileName.value);
         p in r.files && r.files[p] == RowImage(s.pictures, media, row).value.0
         && r.dirs == d.dirs && forall q :: q != p ==> SameAt(r, d, q))
      && (rec.photoFileName.None? ==> r == d)
  {
  }

  datatype ImportState = ImportState(records: seq<PhotoRecord>, warnings: seq<string>, disk: Disk)

  /** One pass of the row loop. */
  function RowStep(st: ImportState, s: Sheet, media: seq<(Bytes, string)>, uploads: string, env: ImportEnv, row: int): ImportState {
    if BlankRow(s, row) then st
    else ImportState(st.records + [ImportedRecord(s, media, env, row)],
                     st.warnings + RowWarnings(s, media, env, row),
                     RowDisk(st.disk, s, media, uploads, env, row))
  }

  /** The non-blank rows among rows 2 to n + 1, in order. */
  function KeptRows(s: Sheet, n: nat): (r: seq<int>)
    ensures forall k :: 0 <= k < |r| ==> 2 <= r[k] <= n + 1 && !BlankRow(s, r[k])
    ensures forall i, j :: 0 <= i < j < |r| ==> r[i] < r[j]
    ensures forall row :: 2 <= row <= n + 1 && !BlankRow(s, row) ==> row in r
    decreases n
  {
    if n == 0 then []
    else
      var pre := KeptRows(s, n - 1);
      var r := pre + (if BlankRow(s, n + 1) then [] else [n + 1]);
      KeptRowsSnoc(s, n, pre, r);
      r
  }

  /** Row n + 1 joins the kept rows of rows 2 to n exactly when it is not
      blank, after them. */
  lemma KeptRowsSnoc(s: Sheet, n: nat, pre: seq<int>, r: seq<int>)
    requires n > 0
    requires forall k :: 0 <= k < |pre| ==> 2 <= pre[k] <= n && !BlankRow(s, pre[k])
    requires forall i, j :: 0 <= i < j < |pre| ==> pre[i] < pre[j]
    requires forall row :: 2 <= row <= n && !BlankRow(s, row) ==> row in pre
    requires r == pre + (if BlankRow(s, n + 1) then [] else [n + 1])
    ensures forall k :: 0 <= k < |r| ==> 2 <= r[k] <= n + 1 && !BlankRow(s, r[k])
    ensures forall i, j :: 0 <= i < j < |r| ==> r[i] < r[j]
    ensures forall row :: 2 <= row <= n + 1 && !BlankRow(s, row) ==> row in r
  {
    assert forall k :: 0 <= k < |pre| ==> r[k] == pre[k];
  }

  /** The records of the given rows, in order. */
  function ImportedRecords(s: Sheet, media: seq<(Bytes, string)>, env: ImportEnv, rows: seq<int>): (r: seq<PhotoRecord>)
    ensures |r| == |rows|
    decreases |rows|
  {
    if rows == [] then [] else ImportedRecords(s, media, env, rows[..|rows| - 1]) + [ImportedRecord(s, media, env, rows[|rows| - 1])]
  }

  lemma {:induction false} ImportedRecordsAt(s: Sheet, media: seq<(Bytes, string)>, env: ImportEnv, rows: seq<int>, k: nat)
    requires k < |rows|
    ensures ImportedRecords(s, media, env, rows)[k] == ImportedRecord(s, media, env, rows[k])
    decreases |rows|
  {
    var n := |rows| - 1;
    var pre := ImportedRecords(s, media, env, rows[..n]);
    var last := ImportedRecord(s, media, env, rows[n]);
    assert ImportedRecords(s, media, env, rows) == pre + [last];
    if k < n {
      ImportedRecordsAt(s, media, env, rows[..n], k);
      assert rows[..n][k] == rows[k];
    }
  }

  /** The warnings of the given rows, in order. */
  function ImportedWarnings(s: Sheet, media: seq<(Bytes, string)>, env: ImportEnv, rows: seq<int>): seq<string>
    decreases |rows|
  {
    if rows == [] then [] else ImportedWarnings(s, media, env, rows[..|rows| - 1]) + RowWarnings(s, media, env, rows[|rows| - 1])
  }

  /** The row loop over rows 2 to n + 1: blank rows are skipped, every
      other row adds its record in row order, with a warning for an image
      whose write failed. */
  function ImportRows(st: ImportState, s: Sheet, media: seq<(Bytes, string)>, uploads: string, env: ImportEnv, n: nat): ImportState
    decreases n
  {
    if n == 0 then st else RowStep(ImportRows(st, s, media, uploads, env, n - 1), s, media, uploads, env, n + 1)
  }

  /** The row loop over rows 2 to n + 1: blank rows are skipped, every
      other row adds its record in row order, with a warning for an image
      whose write failed. */
  lemma {:induction false} ImportRowsEffect(st: ImportState, s: Sheet, media: seq<(Bytes, string)>, uploads: string, env: ImportEnv, n: nat)
    ensures var r := ImportRows(st, s, media, uploads, env, n);
      r.records == st.records + ImportedRecords(s, media, env, KeptRows(s, n))
      && r.warnings == st.warnings + ImportedWarnings(s, media, env, KeptRows(s, n))
    decreases n
  {
    if n > 0 {
      var pre := ImportRows(st, s, media, uploads, env, n - 1);
      ImportRowsEffect(st, s, media, uploads, env, n - 1);
      var r := RowStep(pre, s, media, uploads, env, n + 1);
      assert ImportRows(st, s, media, uploads, env, n) == r;
      var kept := KeptRows(s, n - 1);
      if BlankRow(s, n + 1) {
        assert KeptRows(s, n) == kept;
        assert r == pre;
      } else {
        var x := ImportedRecord(s, media, env, n + 1);
        var w := RowWarnings(s, media, env, n + 1);
        assert KeptRows(s, n) == kept + [n + 1];
        ImportedRecordsSnoc(s, media, env, kept, n + 1);
        assert r.records == pre.records + [x];
        assert r.warnings == pre.warnings + w;
        AppendAssoc(st.records, ImportedRecords(s, media, env, kept), [x]);
        AppendAssoc(st.warnings, ImportedWarnings(s, media, env, kept), w);
      }
    }
  }

  lemma RowStepEffect(st: ImportState, s: Sheet, media: seq<(Bytes, string)>, uploads: string, env: ImportEnv, row: int)
    ensures var r := RowStep(st, s, media, uploads, env, row);
      r.records == st.records + (if BlankRow(s, row) then [] else [ImportedRecord(s, media, env, row)])
      && r.warnings == st.warnings + (if BlankRow(s, row) then [] else RowWarnings(s, media, env, row))
  { }

  lemma ImportedRecordsSnoc(s: Sheet, media: seq<(Bytes, string)>, env: ImportEnv, rows: seq<int>, row: int)
    ensures ImportedRecords(s, media, env, rows + [row]) == ImportedRecords(s, media, env, rows) + [ImportedRecord(s, media, env, row)]
    ensures ImportedWarnings(s, media, env, rows + [row]) == ImportedWarnings(s, media, env, rows) + RowWarnings(s, media, env, row)
  {
    assert (rows + [row])[..|rows|] == rows;
  }

  /** ws.Dimension?.End.Row ?? 1, and the number of rows from row 2 on
      the loop visits. */
  function RowCount(s: Sheet): nat {
    var last := s.endRow.GetOr(1);
    if last >= 2 then last - 1 else 0
  }

  /** The body of the row loop. */
  method ImportRow(fs: FileSystem, s: Sheet, media: seq<(Bytes, string)>, uploads: string, env: ImportEnv, row: int,
                   records0: seq<PhotoRecord>, warnings0: seq<string>)
    returns (records: seq<PhotoRecord>, warnings: seq<string>)
    modifies fs
    ensures RowStep(ImportState(records0, warnings0, old(fs.View())), s, media, uploads, env, row) == ImportState(records, warnings, fs.View())
  {
    records, warnings := records0, warnings0;
    var empty := IsRowEmpty(s, row);
    if empty {
      return;
    }
    var rec := RowRecord(s, row, env.created(row), env.updated(row));
    var pic := FirstPicture(s.pictures, row);
    ghost var image := RowImage(s.pictures, media, row);
    if pic.Some? {
      var k := pic.value;
      var img := s.pictures[k].image;
      var ext := ".png";
      var bytes: Bytes := if img.Some? then img.value else [];
      if bytes == [] && k < |media| {
        bytes := media[k].0;
        ext := GetExtension(media[k].1);
      }
      assert image == if bytes != [] then Some((bytes, ext)) else None;
      if bytes != [] {
        var name := ImageName(env.guid(row), ext);
        match env.imageError(row)
        case Some(msg) =>
          warnings := warnings + [ImageWarning(row, msg)];
        case None =>
          fs.WriteAllBytes(Combine(uploads, name), bytes);
          rec := rec.(photoFileName := Some(name), imagePath := Some(UploadWebPath(name)));
      }
    }
    records := records + [rec];
  }

  /** The row loop; the initial warnings are those added before it. */
  method ImportSheet(fs: FileSystem, s: Sheet, media: seq<(Bytes, string)>, uploads: string, env: ImportEnv, warnings0: seq<string>)
    returns (records: seq<PhotoRecord>, warnings: seq<string>)
    modifies fs
    ensures ImportRows(ImportState([], warnings0, old(fs.View())), s, media, uploads, env, RowCount(s)) == ImportState(records, warnings, fs.View())
  {
    ghost var st0 := ImportState([], warnings0, fs.View());
    records := [];
    warnings := warnings0;
    var endRow := s.endRow.GetOr(1);
    var row := 2;
    while row <= endRow
      invariant 2 <= row && (row - 2 <= RowCount(s))
      invariant row <= endRow ==> row - 2 < RowCount(s)
      invariant row > endRow ==> row - 2 == RowCount(s)
      invariant ImportRows(st0, s, media, uploads, env, row - 2) == ImportState(records, warnings, fs.View())
      decreases endRow - row
    {
      ImportRowsNext(st0, s, media, uploads, env, row - 2);
      records, warnings := ImportRow(fs, s, media, uploads, env, row, records, warnings);
      row := row + 1;
    }
  }

  lemma ImportRowsNext(st: ImportState, s: Sheet, media: seq<(Bytes, string)>, uploads: string, env: ImportEnv, n: nat)
    ensures ImportRows(st, s, media, uploads, env, n + 1) == RowStep(ImportRows(st, s, media, uploads, env, n), s, media, uploads, env, n + 2)
  { }

  // ---------------------------------------------------------- the action

  /** How reading the workbook ends: refused because it has no worksheet,
      or finished, possibly with the outer catch's warning. */
  datatype Reading = NoWorksheet(disk: Disk) | Finished(state: ImportState)

  function ReadWorkbook(d: Disk, uploads: string, wb: Workbook, env: ImportEnv): Reading {
    match wb.archive
    case None => Finished(ImportState([], [FailureWarning(env.failure)], d))
    case Some(a) =>
      match SaveMedia(d, uploads, MediaEntries(a))
      case MediaFailed(d1) => Finished(ImportState([], [FailureWarning(env.failure)], d1))
      case MediaSaved(d1, media) =>
        if wb.sheets.None? then Finished(ImportState([], [FailureWarning(env.failure)], d1))
        else if wb.sheets.value == [] then NoWorksheet(d1)
        else
          var s := wb.sheets.value[0];
          Finished(ImportRows(ImportState([], [SheetSummary(s, |media|)], d1), s, media, uploads, env, RowCount(s)))
  }

  /** Reading the uploaded workbook: copying its media, then the rows of
      its first worksheet; read is false when it has no worksheet. */
  method ReadUpload(fs: FileSystem, uploads: string, wb: Workbook, env: ImportEnv)
    returns (read: bool, records: seq<PhotoRecord>, warnings: seq<string>)
    modifies fs
    ensures ReadWorkbook(old(fs.View()), uploads, wb, env)
      == if read then Finished(ImportState(records, warnings, fs.View())) else NoWorksheet(fs.View())
  {
    read, records, warnings := true, [], [FailureWarning(env.failure)];
    if wb.archive.None? {
      return;
    }
    ghost var d := fs.View();
    var ok, media := SaveMediaFiles(fs, uploads, MediaEntries(wb.archive.value));
    if !ok {
      ReadFailed(d, uploads, wb, env);
      return;
    }
    ReadSaved(d, uploads, wb, env);
    if wb.sheets.None? {
      return;
    }
    if wb.sheets.value == [] {
      return false, records, warnings;
    }
    var s := wb.sheets.value[0];
    records, warnings := ImportSheet(fs, s, media, uploads, env, [SheetSummary(s, |media|)]);
  }

  /** The action's result: the form again with an error, the redirect to
      Index with TempData's ImportResult and ImportWarnings, or an
      exception that escapes. */
  datatype ImportOutcome = ImportForm(error: string) | ImportDone(summary: string, details: string) | ImportUnhandled

  /** The outcome, the records to add, and the file system afterwards. */
  datatype ImportRun = ImportRun(outcome: ImportOutcome, added: seq<PhotoRecord>, disk: Disk)

  function ImportRunOf(webRoot: Option<string>, d: Disk, upload: Option<Workbook>, env: ImportEnv): (r: ImportRun)
    ensures upload.None? || upload.value.length == 0 ==> r == ImportRun(ImportForm(NoDataMessage), [], d)
    ensures r.outcome.ImportUnhandled? <==> upload.Some? && upload.value.length > 0 && webRoot.None?
    ensures !r.outcome.ImportDone? ==> r.added == []
  {
    if upload.None? || upload.value.length == 0 then ImportRun(ImportForm(NoDataMessage), [], d)
    else if webRoot.None? then ImportRun(ImportUnhandled, [], d)
    else
      var uploads := Combine(webRoot.value, "uploads");
      match ReadWorkbook(EnsureDir(d, uploads), uploads, upload.value, env)
      case NoWorksheet(d1) => ImportRun(ImportForm(NoSheetMessage), [], d1)
      case Finished(st) =>
        ImportRun(ImportDone(ResultLine(|st.records|, |st.warnings|), Join(st.warnings, "\n")), st.records, st.disk)
  }

  /** ReadWorkbook when saving the media fails: the outer catch's
      warning, with the files written before the failure. */
  lemma ReadFailed(d: Disk, uploads: string, wb: Workbook, env: ImportEnv)
    requires wb.archive.Some? && SaveMedia(d, uploads, MediaEntries(wb.archive.value)).MediaFailed?
    ensures ReadWorkbook(d, uploads, wb, env)
      == Finished(ImportState([], [FailureWarning(env.failure)], SaveMedia(d, uploads, MediaEntries(wb.archive.value)).disk))
  {
  }

  /** ImportRunOf for a non-empty upload and a web root: the outcome of
      reading the workbook into the uploads folder. */
  lemma ImportRunRead(w: string, d: Disk, wb: Workbook, env: ImportEnv)
    requires wb.length > 0
    ensures var uploads := Combine(w, "uploads");
      var r := ImportRunOf(Some(w), d, Some(wb), env);
      match ReadWorkbook(EnsureDir(d, uploads), uploads, wb, env)
      case NoWorksheet(d1) => r == ImportRun(ImportForm(NoSheetMessage), [], d1)
      case Finished(st) =>
        r == ImportRun(ImportDone(ResultLine(|st.records|, |st.warnings|), Join(st.warnings, "\n")), st.records, st.disk)
  {
  }

  /** ReadWorkbook once the media of an archive have been saved. */
  lemma ReadSaved(d: Disk, uploads: string, wb: Workbook, env: ImportEnv)
    requires wb.archive.Some? && SaveMedia(d, uploads, MediaEntries(wb.archive.value)).MediaSaved?
    ensures var saved := SaveMedia(d, uploads, MediaEntries(wb.archive.value));
      ReadWorkbook(d, uploads, wb, env) ==
        if wb.sheets.None? then Finished(ImportState([], [FailureWarning(env.failure)], saved.disk))
        else if wb.sheets.value == [] then NoWorksheet(saved.disk)
        else
          var s := wb.sheets.value[0];
          Finished(ImportRows(ImportState([], [SheetSummary(s, |saved.media|)], saved.disk), s, saved.media, uploads, env, RowCount(s)))
  {
  }

  /** A workbook without a worksheet is refused and nothing is added, but
      the media files copied before the worksheet was looked for stay in
      the uploads folder. */
  lemma NoWorksheetKeepsMedia(w: string, d: Disk, wb: Workbook, env: ImportEnv)
    requires wb.length > 0 && wb.archive.Some? && wb.sheets == Some([])
    ensures var uploads := Combine(w, "uploads");
      var saved := SaveMedia(EnsureDir(d, uploads), uploads, MediaEntries(wb.archive.value));
      var r := ImportRunOf(Some(w), d, Some(wb), env);
      saved.MediaSaved? ==> r == ImportRun(ImportForm(NoSheetMessage), [], saved.disk)
  {
    var uploads := Combine(w, "uploads");
    var saved := SaveMedia(EnsureDir(d, uploads), uploads, MediaEntries(wb.archive.value));
    if saved.MediaSaved? {
      ReadSaved(EnsureDir(d, uploads), uploads, wb, env);
      ImportRunRead(w, d, wb, env);
    }
  }

  /** An import that finishes adds one record per non-blank row of the
      first worksheet, in row order, and its summary counts them. */
  lemma ImportAddsKeptRows(w: string, d: Disk, wb: Workbook, env: ImportEnv)
    requires wb.length > 0 && wb.archive.Some? && wb.sheets.Some? && wb.sheets.value != []
    ensures var uploads := Combine(w, "uploads");
      var s := wb.sheets.value[0];
      var saved := SaveMedia(EnsureDir(d, uploads), uploads, MediaEntries(wb.archive.value));
      var r := ImportRunOf(Some(w), d, Some(wb), env);
      saved.MediaSaved? ==>
        r.outcome.ImportDone? && r.added == ImportedRecords(s, saved.media, env, KeptRows(s, RowCount(s)))
        && |r.added| == |KeptRows(s, RowCount(s))|
        && (forall k :: 0 <= k < |r.added| ==> r.added[k] == ImportedRecord(s, saved.media, env, KeptRows(s, RowCount(s))[k]))
  {
    var uploads := Combine(w, "uploads");
    var s := wb.sheets.value[0];
    var saved := SaveMedia(EnsureDir(d, uploads), uploads, MediaEntries(wb.archive.value));
    if saved.MediaSaved? {
      var st0 := ImportState([], [SheetSummary(s, |saved.media|)], saved.disk);
      var st := ImportRows(st0, s, saved.media, uploads, env, RowCount(s));
      ReadSaved(EnsureDir(d, uploads), uploads, wb, env);
      ImportRunRead(w, d, wb, env);
      var kept := KeptRows(s, RowCount(s));
      ImportRowsEffect(st0, s, saved.media, uploads, env, RowCount(s));
      assert st.records == ImportedRecords(s, saved.media, env, kept);
      forall k | 0 <= k < |kept|
        ensures st.records[k] == ImportedRecord(s, saved.media, env, kept[k])
      {
        ImportedRecordsAt(s, saved.media, env, kept, k);
      }
    }
  }
}
