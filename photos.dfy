/** PhotosController's state-changing actions and exports: upload
    validation, Create, Edit and Delete over the Photos table and the
    uploads folder, the CSV export and the spreadsheet export. The Index
    listing is in module Query. */
module Photos {
  import opened Text
  import opened Paths
  import opened FileStore
  import opened Records
  import opened Query
  import opened Sheets
  import opened Import

  // ------------------------------------------------------------- uploads

  /** An IFormFile (the PhotoFile form field): its ContentType, its
      FileName and its content; Length is the content's length. */
  datatype FormFile = FormFile(contentType: string, fileName: string, bytes: Bytes)

  const MaxFileSize: int := 5 * 1024 * 1024

  const PermittedTypes: seq<string> := ["image/jpeg", "image/png", "image/gif", "image/webp"]

  const TooLargeMessage := "Soubor je příliš velký."
  const BadTypeMessage := "Nepodporovaný typ souboru."

  datatype UploadCheck = NoFile | Rejected(error: string) | Accepted(file: FormFile)

  /** The upload checks of Create and Edit: no file or an empty one skips
      them; otherwise the size is checked first, then the content type,
      compared exactly against the four permitted types. */
  function CheckUpload(f: Option<FormFile>): (r: UploadCheck)
    ensures r.NoFile? <==> f.None? || f.value.bytes == []
    ensures r.Accepted? <==> f.Some? && 0 < |f.value.bytes| <= MaxFileSize && f.value.contentType in PermittedTypes
    ensures r.Accepted? ==> r.file == f.value
    ensures r.Rejected? ==> r.error == if |f.value.bytes| > MaxFileSize then TooLargeMessage else BadTypeMessage
  {
    if f.None? || |f.value.bytes| == 0 then NoFile
    else if |f.value.bytes| > MaxFileSize then Rejected(TooLargeMessage)
    else if f.value.contentType !in PermittedTypes then Rejected(BadTypeMessage)
    else Accepted(f.value)
  }

  /** The type comparison is exact: an upload declared as "image/JPEG" is
      refused. */
  lemma ContentTypeCaseMatters(name: string, bytes: Bytes)
    requires 0 < |bytes| <= MaxFileSize
    ensures CheckUpload(Some(FormFile("image/JPEG", name, bytes))) == Rejected(BadTypeMessage)
  {
    var t := "image/JPEG";
    assert t != PermittedTypes[0] by { assert t[6] != PermittedTypes[0][6]; }
    assert t != PermittedTypes[1] by { assert t[6] != PermittedTypes[1][6]; }
    assert t != PermittedTypes[2] by { assert t[6] != PermittedTypes[2][6]; }
    assert t != PermittedTypes[3] by { assert t[6] != PermittedTypes[3][6]; }
  }

  // ------------------------------------------------------------- records

  /** The sixteen properties Create and Edit copy from the posted form:
      Position, ExternalId, OriginalName, Material, Form, Filler, Color,
      Mfi, MonthlyQuantity, Name, Code, Type, Supplier, Description, Notes
      and ImagePath. */
  predicate SameFormFields(a: PhotoRecord, b: PhotoRecord) {
    a.position == b.position && a.externalId == b.externalId && a.originalName == b.originalName
    && a.material == b.material && a.form == b.form && a.filler == b.filler && a.color == b.color
    && a.mfi == b.mfi && a.monthlyQuantity == b.monthlyQuantity && a.name == b.name
    && a.code == b.code && a.kind == b.kind && a.supplier == b.supplier
    && a.description == b.description && a.notes == b.notes && a.imagePath == b.imagePath
  }

  /** The entity Create builds: the form's fields, PhotoPath the saved
      upload's path when there is one and the form's otherwise,
      CreatedAt and UpdatedAt from two reads of the clock, PhotoFileName
      null and Id left to the database. */
  function NewPhoto(model: PhotoRecord, savedPath: Option<string>, created: DateTime, updated: DateTime): (r: PhotoRecord)
    ensures SameFormFields(r, model)
    ensures r.photoPath == if savedPath.Some? then savedPath else model.photoPath
    ensures r.id == 0 && r.photoFileName.None? && r.createdAt == created && r.updatedAt == updated
  {
    model.(id := 0, photoFileName := None,
           photoPath := if savedPath.Some? then savedPath else model.photoPath,
           createdAt := created, updatedAt := updated)
  }

  /** The entity Edit saves: the form's fields written over the stored
      record, PhotoPath replaced only by a new upload, UpdatedAt now, and
      Id, PhotoFileName and CreatedAt kept. */
  function EditRecord(existing: PhotoRecord, model: PhotoRecord, newPath: Option<string>, now: DateTime): (r: PhotoRecord)
    ensures SameFormFields(r, model)
    ensures r.id == existing.id && r.photoFileName == existing.photoFileName && r.createdAt == existing.createdAt
    ensures r.photoPath == if newPath.Some? then newPath else existing.photoPath
    ensures r.updatedAt == now
  {
    model.(id := existing.id, photoFileName := existing.photoFileName,
           photoPath := if newPath.Some? then newPath else existing.photoPath,
           createdAt := existing.createdAt, updatedAt := now)
  }

  // --------------------------------------------------------------- table

  predicate IdsDistinct(s: seq<PhotoRecord>) {
    forall i, j :: 0 <= i < j < |s| ==> s[i].id != s[j].id
  }

  /** The largest Id in the table, 0 when it is empty. */
  function MaxId(s: seq<PhotoRecord>): (r: int)
    ensures r >= 0 && forall i :: 0 <= i < |s| ==> s[i].id <= r
    decreases |s|
  {
    if s == [] then 0
    else
      var m := MaxId(s[1..]);
      assert forall i :: 1 <= i < |s| ==> s[i] == s[1..][i - 1];
      if s[0].id > m then s[0].id else m
  }

  /** The Id SQLite gives a new row of an INTEGER PRIMARY KEY
      AUTOINCREMENT table: one more than the larger of the table's
      sqlite_sequence entry (last, the largest Id the table ever handed
      out) and the largest Id in use. */
  function NextId(s: seq<PhotoRecord>, last: int): (r: int)
    ensures r >= 1 && r > last && forall i :: 0 <= i < |s| ==> s[i].id < r
  {
    var m := MaxId(s);
    (if last > m then last else m) + 1
  }

  /** Add and SaveChanges: the record is appended under a fresh Id, above
      every Id the table has handed out before. */
  function Insert(s: seq<PhotoRecord>, last: int, p: PhotoRecord): (r: seq<PhotoRecord>)
    ensures |r| == |s| + 1 && r[..|s|] == s
    ensures r[|s|] == p.(id := r[|s|].id) && forall i :: 0 <= i < |s| ==> s[i].id != r[|s|].id
    ensures r[|s|].id > last
    ensures IdsDistinct(s) ==> IdsDistinct(r)
  {
    s + [p.(id := NextId(s, last))]
  }

  /** AddRange and SaveChanges: the records are appended in order, each
      under a fresh Id; each insert moves sqlite_sequence to the Id it
      hands out. */
  function InsertAll(s: seq<PhotoRecord>, last: int, ps: seq<PhotoRecord>): (r: seq<PhotoRecord>)
    ensures |r| == |s| + |ps| && r[..|s|] == s
    ensures forall k :: 0 <= k < |ps| ==> r[|s| + k] == ps[k].(id := r[|s| + k].id) && r[|s| + k].id > last
    ensures IdsDistinct(s) ==> IdsDistinct(r)
    decreases |ps|
  {
    if ps == [] then s
    else
      var n := |ps| - 1;
      var pre := InsertAll(s, last, ps[..n]);
      var cur := SequenceAfter(last, s, pre);
      InsertOneMore(s, last, cur, ps, ps[..n], pre);
      Insert(pre, cur, ps[n])
  }

  /** sqlite_sequence after a statement took the table from before to
      after: the Id of the last row appended, when rows were appended;
      otherwise as it was (deleting or updating rows leaves it). */
  function SequenceAfter(last: int, before: seq<PhotoRecord>, after: seq<PhotoRecord>): int {
    if |after| > |before| then after[|after| - 1].id else last
  }

  /** One more record appended after the first n keeps what AddRange
      promises for them. */
  lemma InsertOneMore(s: seq<PhotoRecord>, last: int, cur: int, ps: seq<PhotoRecord>, init: seq<PhotoRecord>, pre: seq<PhotoRecord>)
    requires ps != [] && init == ps[..|ps| - 1] && |pre| == |s| + |init| && pre[..|s|] == s
    requires forall k :: 0 <= k < |init| ==> pre[|s| + k] == init[k].(id := pre[|s| + k].id) && pre[|s| + k].id > last
    requires cur >= last
    ensures var r := Insert(pre, cur, ps[|ps| - 1]);
      r[..|s|] == s && forall k :: 0 <= k < |ps| ==> r[|s| + k] == ps[k].(id := r[|s| + k].id) && r[|s| + k].id > last
  {
    var n := |ps| - 1;
    var r := Insert(pre, cur, ps[n]);
    assert r[..|pre|] == pre;
    forall k | 0 <= k < |ps| ensures r[|s| + k] == ps[k].(id := r[|s| + k].id) && r[|s| + k].id > last {
      if k < n {
        assert r[|s| + k] == pre[|s| + k] && init[k] == ps[k];
      }
    }
    assert r[..|s|] == pre[..|s|];
  }

  /** FirstOrDefault(p => p.Id == id), by position. */
  function FindIndex(s: seq<PhotoRecord>, id: int): (r: Option<nat>)
    ensures r.Some? ==> r.value < |s| && s[r.value].id == id
    ensures r.None? ==> forall i :: 0 <= i < |s| ==> s[i].id != id
    decreases |s|
  {
    if s == [] then None
    else if s[0].id == id then Some(0)
    else match FindIndex(s[1..], id)
      case None => None
      case Some(k) => Some(k + 1)
  }

  /** With distinct Ids, looking a record's Id up finds that record. */
  lemma {:induction false} FindIndexUnique(s: seq<PhotoRecord>, k: nat)
    requires IdsDistinct(s) && k < |s|
    ensures FindIndex(s, s[k].id) == Some(k)
    decreases |s|
  {
    if k > 0 {
      assert s[0].id != s[k].id;
      assert s[1..][k - 1] == s[k];
      FindIndexUnique(s[1..], k - 1);
    }
  }

  /** Removing the record at position k. */
  function RemoveAt(s: seq<PhotoRecord>, k: nat): (r: seq<PhotoRecord>)
    requires k < |s|
    ensures |r| == |s| - 1
    ensures forall i :: 0 <= i < |r| ==> r[i] == if i < k then s[i] else s[i + 1]
    ensures IdsDistinct(s) ==> IdsDistinct(r)
  {
    s[..k] + s[k + 1..]
  }

  /** The Photos table behind AppDbContext, with its sqlite_sequence
      entry lastId: the largest Id the table has handed out, which no
      later insert goes back below. */
  class PhotoStore {
    var photos: seq<PhotoRecord>
    var lastId: int

    predicate Valid()
      reads this
    {
      IdsDistinct(photos) && forall i :: 0 <= i < |photos| ==> photos[i].id <= lastId
    }

    /** A table read from a database file whose sqlite_sequence entry is
        sequence; SQLite keeps that entry at or above every Id in use. */
    constructor (initial: seq<PhotoRecord>, sequence: int)
      requires IdsDistinct(initial)
      ensures photos == initial && lastId == NextId(initial, sequence) - 1 && Valid()
    {
      photos := initial;
      lastId := NextId(initial, sequence) - 1;
    }

    method Add(p: PhotoRecord) returns (id: int)
      requires Valid()
      modifies this
      ensures photos == Insert(old(photos), old(lastId), p) && id == photos[|photos| - 1].id
      ensures lastId == id && id > old(lastId)
      ensures Valid()
    {
      id := NextId(photos, lastId);
      photos := photos + [p.(id := id)];
      lastId := id;
    }

    /** AddRange: the records are added one after another. */
    method AddRange(ps: seq<PhotoRecord>)
      requires Valid()
      modifies this
      ensures photos == InsertAll(old(photos), old(lastId), ps)
      ensures lastId == SequenceAfter(old(lastId), old(photos), photos)
      ensures Valid()
    {
      for i := 0 to |ps|
        invariant photos == InsertAll(old(photos), old(lastId), ps[..i])
        invariant lastId == SequenceAfter(old(lastId), old(photos), photos)
        invariant Valid()
      {
        assert ps[..i + 1][..i] == ps[..i];
        var _ := Add(ps[i]);
      }
      assert ps[..|ps|] == ps;
    }

    method Put(k: nat, p: PhotoRecord)
      requires Valid() && k < |photos| && p.id == photos[k].id
      modifies this
      ensures photos == old(photos)[k := p] && lastId == old(lastId)
      ensures Valid()
    {
      photos := photos[k := p];
    }

    method Remove(k: nat)
      requires Valid() && k < |photos|
      modifies this
      ensures photos == RemoveAt(old(photos), k) && lastId == old(lastId)
      ensures Valid()
    {
      photos := RemoveAt(photos, k);
    }
  }

  // ------------------------------------------------------------- actions

  /** An action's result. ShowForm redisplays the form with the model
      errors added; Unhandled is an exception that escapes the action. */
  datatype Outcome =
    | ShowForm(errors: seq<string>)
    | RedirectToIndex
    | NotFoundResult
    | Unhandled
    | Download(content: string, contentType: string, fileName: string)
    | SheetDownload(sheet: Sheet, fileName: string)

  /** How an action ended: its result, the table and the file system. */
  datatype Run = Run(outcome: Outcome, photos: seq<PhotoRecord>, disk: Disk)

  /** An accepted upload written to WebRootPath\uploads\{guid}{ext}. */
  function SaveUpload(d: Disk, webRoot: string, guid: string, f: FormFile): (r: Disk)
    ensures var saved := Combine(Combine(webRoot, "uploads"), ImageName(guid, GetExtension(f.fileName)));
      saved in r.files && r.files[saved] == f.bytes && forall q :: q != saved ==> SameAt(r, d, q)
  {
    var uploads := Combine(webRoot, "uploads");
    WriteFile(EnsureDir(d, uploads), Combine(uploads, ImageName(guid, GetExtension(f.fileName))), f.bytes)
  }

  /** `if (File.Exists(p)) File.Delete(p)`. */
  function DeleteIfExists(d: Disk, p: string): (r: Disk)
    ensures p !in r.files && r.dirs == d.dirs
    ensures forall q :: q != p ==> SameAt(r, d, q)
  {
    if p in d.files then DeleteFile(d, p) else d
  }

  /** Create(photoModel, PhotoFile): an invalid model or a refused upload
      redisplays the form; an accepted upload is saved first (a null web
      root makes Path.Combine throw); then the record is added. */
  function CreateRun(webRoot: Option<string>, photos: seq<PhotoRecord>, last: int, d: Disk, model: PhotoRecord, valid: bool,
                     file: Option<FormFile>, guid: string, created: DateTime, updated: DateTime): Run
  {
    if !valid then Run(ShowForm([]), photos, d)
    else match CheckUpload(file)
      case Rejected(e) => Run(ShowForm([e]), photos, d)
      case NoFile => Run(RedirectToIndex, Insert(photos, last, NewPhoto(model, None, created, updated)), d)
      case Accepted(f) =>
        if webRoot.None? then Run(Unhandled, photos, d)
        else
          var name := ImageName(guid, GetExtension(f.fileName));
          Run(RedirectToIndex, Insert(photos, last, NewPhoto(model, Some(UploadWebPath(name)), created, updated)), SaveUpload(d, webRoot.value, guid, f))
  }

  /** Edit(id, photoModel, PhotoFile): the checks in the order the action
      makes them; an accepted upload is saved, the old photo file deleted
      when the record had a PhotoPath, and the record updated in place. */
  function EditRun(webRoot: Option<string>, photos: seq<PhotoRecord>, d: Disk, id: int, model: PhotoRecord, valid: bool,
                   file: Option<FormFile>, guid: string, now: DateTime): (r: Run)
    ensures |r.photos| == |photos|
  {
    if id != model.id then Run(NotFoundResult, photos, d)
    else if !valid then Run(ShowForm([]), photos, d)
    else match FindIndex(photos, id)
      case None => Run(NotFoundResult, photos, d)
      case Some(k) =>
        var existing := photos[k];
        match CheckUpload(file)
        case Rejected(e) => Run(ShowForm([e]), photos, d)
        case NoFile => Run(RedirectToIndex, photos[k := EditRecord(existing, model, None, now)], d)
        case Accepted(f) =>
          if webRoot.None? then Run(Unhandled, photos, d)
          else
            var name := ImageName(guid, GetExtension(f.fileName));
            var d1 := SaveUpload(d, webRoot.value, guid, f);
            var d2 := if IsEmptyOpt(existing.photoPath) then d1 else DeleteIfExists(d1, WebFile(webRoot.value, existing.photoPath.value));
            Run(RedirectToIndex, photos[k := EditRecord(existing, model, Some(UploadWebPath(name)), now)], d2)
  }

  /** DeleteConfirmed(id): the record's photo file is deleted when it has
      a PhotoPath, then the record. An unknown id changes nothing. */
  function DeleteRun(webRoot: Option<string>, photos: seq<PhotoRecord>, d: Disk, id: int): Run {
    match FindIndex(photos, id)
    case None => Run(RedirectToIndex, photos, d)
    case Some(k) =>
      if IsEmptyOpt(photos[k].photoPath) then Run(RedirectToIndex, RemoveAt(photos, k), d)
      else if webRoot.None? then Run(Unhandled, photos, d)
      else Run(RedirectToIndex, RemoveAt(photos, k), DeleteIfExists(d, WebFile(webRoot.value, photos[k].photoPath.value)))
  }

  // ---------------------------------------------------- action properties

  /** A web root Path.Combine can join onto. */
  predicate UsableRoot(w: string) {
    w != "" && !EndsWithSep(w)
  }

  /** Create with an accepted upload: the record links the file as
      "/uploads/{guid}{ext}", and that link names the file now holding
      the upload. */
  lemma CreateLinksUpload(w: string, photos: seq<PhotoRecord>, last: int, d: Disk, model: PhotoRecord, f: FormFile, guid: string,
                          created: DateTime, updated: DateTime)
    requires UsableRoot(w) && IsGuid(guid) && CheckUpload(Some(f)).Accepted?
    ensures var r := CreateRun(Some(w), photos, last, d, model, true, Some(f), guid, created, updated);
      var path := UploadWebPath(ImageName(guid, GetExtension(f.fileName)));
      r.outcome == RedirectToIndex && r.photos[|photos|].photoPath == Some(path)
      && WebFile(w, path) in r.disk.files && r.disk.files[WebFile(w, path)] == f.bytes
  {
    ImageNamePlain(guid, f.fileName);
    UploadFileFound(w, ImageName(guid, GetExtension(f.fileName)));
  }

  /** Create without a file keeps the form's PhotoPath and writes nothing;
      a refused file changes nothing and reports why. */
  lemma CreateWithoutUpload(webRoot: Option<string>, photos: seq<PhotoRecord>, last: int, d: Disk, model: PhotoRecord,
                            file: Option<FormFile>, guid: string, created: DateTime, updated: DateTime)
    requires !CheckUpload(file).Accepted?
    ensures var r := CreateRun(webRoot, photos, last, d, model, true, file, guid, created, updated);
      r.disk == d
      && (CheckUpload(file).NoFile? ==> r.outcome == RedirectToIndex && |r.photos| == |photos| + 1 && r.photos[|photos|].photoPath == model.photoPath)
      && (CheckUpload(file).Rejected? ==> r.outcome == ShowForm([CheckUpload(file).error]) && r.photos == photos)
  { }

  /** Edit with an id that differs from the form's, or of a record that is
      not there, answers NotFound and changes nothing. */
  lemma EditNotFound(webRoot: Option<string>, photos: seq<PhotoRecord>, d: Disk, id: int, model: PhotoRecord, valid: bool,
                     file: Option<FormFile>, guid: string, now: DateTime)
    requires id != model.id || (valid && forall i :: 0 <= i < |photos| ==> photos[i].id != id)
    ensures EditRun(webRoot, photos, d, id, model, valid, file, guid, now) == Run(NotFoundResult, photos, d)
  {
    if id == model.id {
      assert FindIndex(photos, id).None?;
    }
  }

  /** A successful Edit changes exactly the edited record: the form's
      fields and UpdatedAt are written, Id, CreatedAt and PhotoFileName
      kept, PhotoPath kept unless a file was uploaded; every other record
      is untouched. */
  lemma EditUpdatesInPlace(webRoot: Option<string>, photos: seq<PhotoRecord>, d: Disk, model: PhotoRecord,
                           file: Option<FormFile>, guid: string, now: DateTime, k: nat)
    requires IdsDistinct(photos) && k < |photos|
    ensures var r := EditRun(webRoot, photos, d, photos[k].id, model, true, file, guid, now);
      r.outcome == RedirectToIndex ==>
        |r.photos| == |photos| && IdsDistinct(r.photos)
        && (forall j :: 0 <= j < |photos| && j != k ==> r.photos[j] == photos[j])
        && SameFormFields(r.photos[k], model) && r.photos[k].updatedAt == now
        && r.photos[k].id == photos[k].id && r.photos[k].createdAt == photos[k].createdAt
        && r.photos[k].photoFileName == photos[k].photoFileName
        && (CheckUpload(file).NoFile? ==> r.photos[k].photoPath == photos[k].photoPath && r.disk == d)
  {
    FindIndexUnique(photos, k);
  }

  /** Edit with an accepted upload: the record links the new file, which
      holds the upload, and the file the old PhotoPath named is gone
      (unless it is the new file itself). Nothing else on disk changes. */
  lemma EditReplacesPhoto(w: string, photos: seq<PhotoRecord>, d: Disk, model: PhotoRecord,
                          f: FormFile, guid: string, now: DateTime, k: nat)
    requires IdsDistinct(photos) && k < |photos| && UsableRoot(w) && IsGuid(guid)
    requires model.id == photos[k].id
    requires CheckUpload(Some(f)).Accepted? && photos[k].photoPath.Some? && photos[k].photoPath.value != ""
    ensures var r := EditRun(Some(w), photos, d, photos[k].id, model, true, Some(f), guid, now);
      var name := ImageName(guid, GetExtension(f.fileName));
      var newFile := WebFile(w, UploadWebPath(name));
      var oldFile := WebFile(w, photos[k].photoPath.value);
      r.outcome == RedirectToIndex && r.photos[k].photoPath == Some(UploadWebPath(name))
      && oldFile !in r.disk.files
      && (oldFile != newFile ==> newFile in r.disk.files && r.disk.files[newFile] == f.bytes)
      && (forall q :: q != oldFile && q != newFile ==> SameAt(r.disk, d, q))
  {
    FindIndexUnique(photos, k);
    var name := ImageName(guid, GetExtension(f.fileName));
    ImageNamePlain(guid, f.fileName);
    UploadFileFound(w, name);
    var newFile := WebFile(w, UploadWebPath(name));
    var oldFile := WebFile(w, photos[k].photoPath.value);
    var d1 := SaveUpload(d, w, guid, f);
    var d2 := DeleteIfExists(d1, oldFile);
    var r := EditRun(Some(w), photos, d, photos[k].id, model, true, Some(f), guid, now);
    assert CheckUpload(Some(f)) == Accepted(f);
    assert r.disk == d2 && r.outcome == RedirectToIndex;
    assert r.photos == photos[k := EditRecord(photos[k], model, Some(UploadWebPath(name)), now)];
    forall q | q != oldFile && q != newFile ensures SameAt(d2, d, q) {
      assert SameAt(d1, d, q);
    }
  }

  /** Delete removes the record and the file its PhotoPath names. */
  lemma DeleteRemovesPhoto(w: string, photos: seq<PhotoRecord>, d: Disk, k: nat)
    requires IdsDistinct(photos) && k < |photos|
    ensures var r := DeleteRun(Some(w), photos, d, photos[k].id);
      r.outcome == RedirectToIndex && r.photos == RemoveAt(photos, k)
      && (forall i :: 0 <= i < |r.photos| ==> r.photos[i].id != photos[k].id)
      && (!IsEmptyOpt(photos[k].photoPath) ==> WebFile(w, photos[k].photoPath.value) !in r.disk.files)
      && (IsEmptyOpt(photos[k].photoPath) ==> r.disk == d)
  {
    FindIndexUnique(photos, k);
    var r := RemoveAt(photos, k);
    forall i | 0 <= i < |r| ensures r[i].id != photos[k].id {
      if i < k { assert r[i] == photos[i]; } else { assert r[i] == photos[i + 1]; }
    }
  }

  /** Ids are not reused: with sqlite_sequence at or above every Id in
      use, a record that Create adds after a Delete gets an Id that no
      record had before the Delete, the deleted one included. */
  lemma DeleteThenCreateFreshId(webRoot: Option<string>, photos: seq<PhotoRecord>, last: int, d: Disk, id: int,
                                model: PhotoRecord, file: Option<FormFile>, guid: string, created: DateTime, updated: DateTime)
    requires forall i :: 0 <= i < |photos| ==> photos[i].id <= last
    ensures var r1 := DeleteRun(webRoot, photos, d, id);
      var r2 := CreateRun(webRoot, r1.photos, last, r1.disk, model, true, file, guid, created, updated);
      r2.outcome == RedirectToIndex ==>
        |r2.photos| == |r1.photos| + 1 && forall i :: 0 <= i < |photos| ==> photos[i].id != r2.photos[|r1.photos|].id
  { }

  // ------------------------------------------------------------------ CSV

  const CsvHeader := "Id;Name;Code;Type;Supplier;Notes;PhotoPath;UpdatedAt"

  /** Environment.NewLine, which StringBuilder.AppendLine ends lines with. */
  const NewLine := "\r\n"

  /** The eight values of a record's CSV line; a null property prints as
      nothing. */
  function CsvFields(p: PhotoRecord): seq<string> {
    [IntToString(p.id), p.name.GetOr(""), p.code, p.kind.GetOr(""), p.supplier.GetOr(""),
     p.notes.GetOr(""), p.photoPath.GetOr(""), FormatMinutes(p.updatedAt)]
  }

  /** "{Id};{Name};{Code};{Type};{Supplier};{Notes};{PhotoPath};{UpdatedAt:yyyy-MM-dd HH:mm}":
      the values joined by ';' with no quoting or escaping. */
  function CsvLine(p: PhotoRecord): string {
    Join(CsvFields(p), ";")
  }

  /** The lines after the header, one per record in the given order. */
  function CsvBody(data: seq<PhotoRecord>): string
    decreases |data|
  {
    if data == [] then "" else CsvBody(data[..|data| - 1]) + CsvLine(data[|data| - 1]) + NewLine
  }

  function CsvDocument(data: seq<PhotoRecord>): string {
    CsvHeader + NewLine + CsvBody(data)
  }

  predicate NoSemicolon(s: string) {
    !ContainsChar(s, ';')
  }

  lemma CsvFixedFields(p: PhotoRecord)
    ensures NoSemicolon(IntToString(p.id)) && NoSemicolon(FormatMinutes(p.updatedAt))
  { }

  /** A CSV line splits back into exactly eight values if and only if
      none of the six text values contains ';'; the Id and the timestamp
      never do. */
  lemma CsvLineColumns(p: PhotoRecord)
    ensures |Split(CsvLine(p), ';')| == 8 <==>
      NoSemicolon(p.name.GetOr("")) && NoSemicolon(p.code) && NoSemicolon(p.kind.GetOr(""))
      && NoSemicolon(p.supplier.GetOr("")) && NoSemicolon(p.notes.GetOr("")) && NoSemicolon(p.photoPath.GetOr(""))
  {
    var f := CsvFields(p);
    CsvFixedFields(p);
    PieceCountIff(f, ';');
    assert (forall k :: 0 <= k < |f| ==> !ContainsChar(f[k], ';')) <==>
      NoSemicolon(f[1]) && NoSemicolon(f[2]) && NoSemicolon(f[3]) && NoSemicolon(f[4]) && NoSemicolon(f[5]) && NoSemicolon(f[6]);
  }

  /** When no value contains ';', splitting the line gives the values back. */
  lemma CsvLineRoundTrip(p: PhotoRecord)
    requires NoSemicolon(p.name.GetOr("")) && NoSemicolon(p.code) && NoSemicolon(p.kind.GetOr(""))
    requires NoSemicolon(p.supplier.GetOr("")) && NoSemicolon(p.notes.GetOr("")) && NoSemicolon(p.photoPath.GetOr(""))
    ensures Split(CsvLine(p), ';') == CsvFields(p)
  {
    CsvFixedFields(p);
    SplitJoin(CsvFields(p), ';');
  }

  /** The StringBuilder loop of ExportCsv. */
  method BuildCsv(data: seq<PhotoRecord>) returns (text: string)
    ensures text == CsvDocument(data)
  {
    var body := "";
    for i := 0 to |data|
      invariant body == CsvBody(data[..i])
    {
      assert data[..i + 1][..i] == data[..i];
      body := body + CsvLine(data[i]) + NewLine;
    }
    assert data[..|data|] == data;
    text := CsvHeader + NewLine + body;
  }

  // ---------------------------------------------------------- spreadsheet

  const Headers: seq<string> := ["Position", "ExternalId", "Supplier", "OriginalName", "Material", "Form",
                                 "Filler", "Color", "Description", "MonthlyQuantity", "MFI", "Notes", "Photo"]

  function HeaderValues(): (r: seq<Option<string>>)
    ensures |r| == 13 && forall k :: 0 <= k < 13 ==> r[k] == Some(Headers[k])
  {
    seq(13, k requires 0 <= k < 13 => Some(Headers[k]))
  }

  /** The values of columns 1 to 12 of a record's row: Position,
      ExternalId, Supplier, OriginalName, Material, Form, Filler, Color,
      Description, MonthlyQuantity, Mfi, Notes. */
  function SheetFields(p: PhotoRecord): (r: seq<Option<string>>)
    ensures |r| == 12
  {
    [p.position, p.externalId, p.supplier, p.originalName, p.material, p.form,
     p.filler, p.color, p.description, p.monthlyQuantity, p.mfi, p.notes]
  }

  const EmptySheet := Sheet("Vzorky", map[], None, [], 0)

  /** Row 1 after the header loop. */
  function HeaderSheet(): Sheet {
    PutRow(EmptySheet, 1, HeaderValues())
  }

  /** The picture name $"img_{row}". */
  function PictureName(row: int): string {
    "img_" + IntToString(row)
  }

  /** The bytes the export embeds for a record: those of the file its
      ImagePath names, when it has one and that file exists. */
  function ExportImage(p: PhotoRecord, webRoot: Option<string>, files: map<string, Bytes>): Option<Bytes> {
    if IsEmptyOpt(p.imagePath) || webRoot.None? then None
    else
      var full := WebFile(webRoot.value, p.imagePath.value);
      if full in files then Some(files[full]) else None
  }

  function AddDrawing(s: Sheet, pic: Picture): Sheet {
    s.(pictures := s.pictures + [pic], drawings := s.drawings + 1)
  }

  /** The body of the export loop for the record at position i: its row
      is i + 2, its twelve values are written, and its image is anchored
      at the 0-based cell (row - 1, 12). A null web root makes the
      Path.Combine for an ImagePath throw, and a file that does not load
      as a picture makes AddPicture throw. */
  function ExportRow(s: Sheet, i: nat, p: PhotoRecord, webRoot: Option<string>, files: map<string, Bytes>, decodes: Bytes -> bool): Option<Sheet> {
    var row := i + 2;
    var s1 := PutRow(s, row, SheetFields(p));
    if !IsEmptyOpt(p.imagePath) && webRoot.None? then None
    else match ExportImage(p, webRoot, files)
      case None => Some(s1)
      case Some(b) =>
        if Loadable(decodes, b) then Some(AddDrawing(s1, Picture(PictureName(row), row - 1, 12, Some(b))))
        else None
  }

  /** Why the export loop stops at a record: a null web root with an
      ImagePath, or an existing file that is not a loadable picture. */
  predicate RowFails(p: PhotoRecord, webRoot: Option<string>, files: map<string, Bytes>, decodes: Bytes -> bool) {
    (webRoot.None? && !IsEmptyOpt(p.imagePath))
    || (ExportImage(p, webRoot, files).Some? && !Loadable(decodes, ExportImage(p, webRoot, files).value))
  }

  function ExportRows(photos: seq<PhotoRecord>, webRoot: Option<string>, files: map<string, Bytes>, decodes: Bytes -> bool): Option<Sheet>
    decreases |photos|
  {
    if photos == [] then Some(HeaderSheet())
    else
      var n := |photos| - 1;
      match ExportRows(photos[..n], webRoot, files, decodes)
      case None => None
      case Some(s) => ExportRow(s, n, photos[n], webRoot, files, decodes)
  }

  /** OrderBy(p => p.Id). */
  function ByIdOrder(photos: seq<PhotoRecord>): (r: seq<PhotoRecord>)
    ensures multiset(r) == multiset(photos)
    ensures forall i, j :: 0 <= i < j < |r| ==> r[i].id <= r[j].id
  {
    SortBy(photos, (p: PhotoRecord) => p.id)
  }

  /** ExportZip: the records ordered by Id, laid out on sheet "Vzorky". */
  function ExportZipRun(webRoot: Option<string>, photos: seq<PhotoRecord>, files: map<string, Bytes>, decodes: Bytes -> bool): Outcome {
    match ExportRows(ByIdOrder(photos), webRoot, files, decodes)
    case None => Unhandled
    case Some(s) => SheetDownload(s, "vzorky_s_obrazky.xlsx")
  }

  // ------------------------------------------------------ export layout

  /** Row 1 holds the thirteen column headers. */
  ghost predicate HeaderCells(s: Sheet) {
    forall c :: 1 <= c <= 13 ==> CellValue(s, 1, c) == Some(Headers[c - 1])
  }

  /** Row i + 2 holds record i's twelve values. */
  ghost predicate RecordCells(s: Sheet, photos: seq<PhotoRecord>) {
    forall row, c :: 2 <= row < |photos| + 2 && 1 <= c <= 12 ==> CellValue(s, row, c) == SheetFields(photos[row - 2])[c - 1]
  }

  /** Values lie only in the header row and the n record rows, column 13
      holds only its header, and the used range reaches every value
      without passing the last record's row. */
  ghost predicate UsedRange(s: Sheet, n: nat) {
    (forall k :: k in s.cells ==> 1 <= k.0 <= n + 1 && 1 <= k.1 <= 13 && (k.1 == 13 ==> k.0 == 1))
    && s.endRow.Some? && 1 <= s.endRow.value <= n + 1
    && (forall k :: k in s.cells ==> k.0 <= s.endRow.value)
  }

  /** Every picture sits in the photo column of a record's row. */
  ghost predicate PictureRows(pics: seq<Picture>, n: nat) {
    forall j :: 0 <= j < |pics| ==> 2 <= pics[j].fromRow + 1 <= n + 1 && pics[j].fromColumn == 12
  }

  /** For the row of each record, the first picture anchored in its photo
      cell is there exactly when the record has an image to export, and
      carries that image's bytes. */
  ghost predicate RowPictures(pics: seq<Picture>, photos: seq<PhotoRecord>, webRoot: Option<string>, files: map<string, Bytes>) {
    forall row :: 2 <= row < |photos| + 2 ==>
      (FirstPicture(pics, row).Some? <==> ExportImage(photos[row - 2], webRoot, files).Some?)
      && (FirstPicture(pics, row).Some? ==> pics[FirstPicture(pics, row).value].image == ExportImage(photos[row - 2], webRoot, files))
  }

  /** What the export promises about the sheet it builds from records in
      the given order. */
  ghost predicate ExportLayout(s: Sheet, photos: seq<PhotoRecord>, webRoot: Option<string>, files: map<string, Bytes>) {
    HeaderCells(s) && RecordCells(s, photos) && UsedRange(s, |photos|)
    && PictureRows(s.pictures, |photos|) && RowPictures(s.pictures, photos, webRoot, files)
  }

  lemma PutRowStep(s: Sheet, row: int, vals: seq<Option<string>>, k: nat)
    requires 1 <= k <= |vals|
    ensures PutRow(s, row, vals[..k]) == SetCell(PutRow(s, row, vals[..k - 1]), row, k, vals[k - 1])
  {
    assert vals[..k][..k - 1] == vals[..k - 1];
  }

  lemma PutRowElsewhere(s: Sheet, row: int, vals: seq<Option<string>>, r0: int, c: int)
    requires r0 != row
    ensures CellValue(PutRow(s, row, vals), r0, c) == CellValue(s, r0, c)
  {
    var k := (r0, c);
    assert !(k.0 == row && 1 <= k.1 <= |vals|);
  }

  lemma HeaderLayout()
    ensures ExportLayout(HeaderSheet(), [], None, map[])
  {
    var s := HeaderSheet();
    forall k | k in s.cells ensures k.0 == 1 && 1 <= k.1 <= 13 {
      assert k in EmptySheet.cells || (k.0 == 1 && 1 <= k.1 <= |HeaderValues()|);
    }
    assert HeaderValues()[0].Some?;
  }

  /** The header layout holds whatever the web root and files. */
  lemma HeaderLayoutAny(webRoot: Option<string>, files: map<string, Bytes>)
    ensures ExportLayout(HeaderSheet(), [], webRoot, files)
  {
    HeaderLayout();
  }

  lemma CellsStep(s: Sheet, pre: seq<PhotoRecord>, p: PhotoRecord)
    requires HeaderCells(s) && RecordCells(s, pre)
    ensures var s1 := PutRow(s, |pre| + 2, SheetFields(p));
      HeaderCells(s1) && RecordCells(s1, pre + [p])
  {
    var row := |pre| + 2;
    var s1 := PutRow(s, row, SheetFields(p));
    var photos := pre + [p];
    forall c | 1 <= c <= 13 ensures CellValue(s1, 1, c) == Some(Headers[c - 1]) {
      PutRowElsewhere(s, row, SheetFields(p), 1, c);
    }
    forall r0, c | 2 <= r0 < |photos| + 2 && 1 <= c <= 12
      ensures CellValue(s1, r0, c) == SheetFields(photos[r0 - 2])[c - 1]
    {
      if r0 < row {
        PutRowElsewhere(s, row, SheetFields(p), r0, c);
        assert photos[r0 - 2] == pre[r0 - 2];
      } else {
        assert photos[r0 - 2] == p;
      }
    }
  }

  lemma RangeStep(s: Sheet, n: nat, p: PhotoRecord)
    requires UsedRange(s, n)
    ensures UsedRange(PutRow(s, n + 2, SheetFields(p)), n + 1)
  {
    var row := n + 2;
    var v := SheetFields(p);
    var r := PutRow(s, row, v);
    if exists k :: 0 <= k < |v| && v[k].Some? {
      assert r.endRow == Some(MaxRow(s.endRow, row));
    } else {
      assert r.endRow == s.endRow;
    }
    forall k | k in r.cells ensures 1 <= k.0 <= n + 2 && 1 <= k.1 <= 13 && (k.1 == 13 ==> k.0 == 1) && k.0 <= r.endRow.value {
      if k.0 == row && 1 <= k.1 <= |v| {
        assert CellValue(r, row, k.1) == v[k.1 - 1];
        assert v[k.1 - 1].Some?;
        assert r.endRow == Some(MaxRow(s.endRow, row));
      } else {
        assert k in s.cells;
      }
    }
  }

  lemma PicturesKeep(pics: seq<Picture>, pre: seq<PhotoRecord>, p: PhotoRecord, webRoot: Option<string>, files: map<string, Bytes>)
    requires PictureRows(pics, |pre|) && RowPictures(pics, pre, webRoot, files)
    requires ExportImage(p, webRoot, files).None?
    ensures PictureRows(pics, |pre| + 1) && RowPictures(pics, pre + [p], webRoot, files)
  {
    var photos := pre + [p];
    var row := |pre| + 2;
    forall r0 | 2 <= r0 < |photos| + 2
      ensures (FirstPicture(pics, r0).Some? <==> ExportImage(photos[r0 - 2], webRoot, files).Some?)
      ensures FirstPicture(pics, r0).Some? ==> pics[FirstPicture(pics, r0).value].image == ExportImage(photos[r0 - 2], webRoot, files)
    {
      if r0 < row {
        assert photos[r0 - 2] == pre[r0 - 2];
      } else {
        assert photos[r0 - 2] == p;
        NoPictureAbove(pics, |pre|, row);
      }
    }
  }

  lemma NoPictureAbove(pics: seq<Picture>, n: nat, row: int)
    requires PictureRows(pics, n) && row > n + 1
    ensures FirstPicture(pics, row).None?
  {
    forall j | 0 <= j < |pics| ensures !AnchoredAt(pics[j], row) {
    }
  }

  lemma PicturesAdd(pics: seq<Picture>, pre: seq<PhotoRecord>, p: PhotoRecord, webRoot: Option<string>, files: map<string, Bytes>, b: Bytes)
    requires PictureRows(pics, |pre|) && RowPictures(pics, pre, webRoot, files)
    requires ExportImage(p, webRoot, files) == Some(b)
    ensures var pic := Picture(PictureName(|pre| + 2), |pre| + 1, 12, Some(b));
      PictureRows(pics + [pic], |pre| + 1) && RowPictures(pics + [pic], pre + [p], webRoot, files)
  {
    var photos := pre + [p];
    var row := |pre| + 2;
    var pic := Picture(PictureName(row), row - 1, 12, Some(b));
    var np := pics + [pic];
    forall r0 | 2 <= r0 < |photos| + 2
      ensures (FirstPicture(np, r0).Some? <==> ExportImage(photos[r0 - 2], webRoot, files).Some?)
      ensures FirstPicture(np, r0).Some? ==> np[FirstPicture(np, r0).value].image == ExportImage(photos[r0 - 2], webRoot, files)
    {
      FirstPictureSnoc(pics, pic, r0);
      if r0 < row {
        assert photos[r0 - 2] == pre[r0 - 2];
        assert !AnchoredAt(pic, r0);
        if FirstPicture(pics, r0).Some? {
          assert np[FirstPicture(pics, r0).value] == pics[FirstPicture(pics, r0).value];
        }
      } else {
        assert photos[r0 - 2] == p;
        NoPictureAbove(pics, |pre|, row);
        assert np[|pics|] == pic;
      }
    }
    forall j | 0 <= j < |np| ensures 2 <= np[j].fromRow + 1 <= |pre| + 2 && np[j].fromColumn == 12 {
      if j < |pics| { assert np[j] == pics[j]; }
    }
  }

  /** One step of the export loop keeps the layout, and fails exactly on
      a null web root with an ImagePath or on an image file that does not
      load as a picture. */
  lemma ExportRowLayout(s: Sheet, pre: seq<PhotoRecord>, p: PhotoRecord, webRoot: Option<string>, files: map<string, Bytes>, decodes: Bytes -> bool)
    requires ExportLayout(s, pre, webRoot, files)
    ensures ExportRow(s, |pre|, p, webRoot, files, decodes).None? <==>
      (webRoot.None? && !IsEmptyOpt(p.imagePath))
      || (ExportImage(p, webRoot, files).Some? && !Loadable(decodes, ExportImage(p, webRoot, files).value))
    ensures ExportRow(s, |pre|, p, webRoot, files, decodes).Some? ==> ExportLayout(ExportRow(s, |pre|, p, webRoot, files, decodes).value, pre + [p], webRoot, files)
  {
    var row := |pre| + 2;
    if !IsEmptyOpt(p.imagePath) && webRoot.None? {
    } else {
      match ExportImage(p, webRoot, files)
      case None =>
        RowKeepsLayout(s, pre, p, webRoot, files);
      case Some(b) =>
        if Loadable(decodes, b) {
          RowAddsLayout(s, pre, p, webRoot, files, b);
        }
    }
  }

  /** A record without an image to export: its row is written. */
  lemma RowKeepsLayout(s: Sheet, pre: seq<PhotoRecord>, p: PhotoRecord, webRoot: Option<string>, files: map<string, Bytes>)
    requires ExportLayout(s, pre, webRoot, files) && ExportImage(p, webRoot, files).None?
    ensures ExportLayout(PutRow(s, |pre| + 2, SheetFields(p)), pre + [p], webRoot, files)
  {
    CellsStep(s, pre, p);
    RangeStep(s, |pre|, p);
    PicturesKeep(s.pictures, pre, p, webRoot, files);
  }

  /** A record with an image: its row is written and the picture added. */
  lemma RowAddsLayout(s: Sheet, pre: seq<PhotoRecord>, p: PhotoRecord, webRoot: Option<string>, files: map<string, Bytes>, b: Bytes)
    requires ExportLayout(s, pre, webRoot, files) && ExportImage(p, webRoot, files) == Some(b)
    ensures var row := |pre| + 2;
      ExportLayout(AddDrawing(PutRow(s, row, SheetFields(p)), Picture(PictureName(row), row - 1, 12, Some(b))), pre + [p], webRoot, files)
  {
    var row := |pre| + 2;
    var s1 := PutRow(s, row, SheetFields(p));
    var r := AddDrawing(s1, Picture(PictureName(row), row - 1, 12, Some(b)));
    CellsStep(s, pre, p);
    RangeStep(s, |pre|, p);
    PicturesAdd(s.pictures, pre, p, webRoot, files, b);
    SameCellsLayout(s1, r, pre + [p]);
  }

  /** Adding a drawing leaves the cell layout. */
  lemma SameCellsLayout(s1: Sheet, r: Sheet, photos: seq<PhotoRecord>)
    requires r.cells == s1.cells && r.endRow == s1.endRow
    requires HeaderCells(s1) && RecordCells(s1, photos) && UsedRange(s1, |photos|)
    ensures HeaderCells(r) && RecordCells(r, photos) && UsedRange(r, |photos|)
  {
    assert forall r0, c :: CellValue(r, r0, c) == CellValue(s1, r0, c);
  }

  /** The export fails exactly when some record fails its step: a null
      web root with an ImagePath, or an image file that does not load as a
      picture; otherwise its sheet has the promised layout: the
      header in row 1, record i's twelve values in row i + 2 (and nothing
      else), and record i's image as the picture the import's anchor test
      finds for row i + 2. */
  lemma {:induction false} ExportRowsLayout(photos: seq<PhotoRecord>, webRoot: Option<string>, files: map<string, Bytes>, decodes: Bytes -> bool)
    ensures ExportRows(photos, webRoot, files, decodes).None? <==>
      exists i :: 0 <= i < |photos| && RowFails(photos[i], webRoot, files, decodes)
    ensures ExportRows(photos, webRoot, files, decodes).Some? ==> ExportLayout(ExportRows(photos, webRoot, files, decodes).value, photos, webRoot, files)
    decreases |photos|
  {
    if photos == [] {
      HeaderLayoutAny(webRoot, files);
    } else {
      var n := |photos| - 1;
      var pre := photos[..n];
      ExportRowsLayout(pre, webRoot, files, decodes);
      ExportRowsUnfold(photos, webRoot, files, decodes);
      RowFailsSnoc(photos, webRoot, files, decodes);
      match ExportRows(pre, webRoot, files, decodes)
      case Some(s) =>
        ExportRowLayout(s, pre, photos[n], webRoot, files, decodes);
        SnocLast(photos);
      case None =>
    }
  }

  lemma ExportRowsUnfold(photos: seq<PhotoRecord>, webRoot: Option<string>, files: map<string, Bytes>, decodes: Bytes -> bool)
    requires photos != []
    ensures var n := |photos| - 1;
      ExportRows(photos, webRoot, files, decodes) ==
        match ExportRows(photos[..n], webRoot, files, decodes)
        case None => None
        case Some(s) => ExportRow(s, n, photos[n], webRoot, files, decodes)
  { }

  /** The export of the first i + 1 records is the export of the first i
      and one more step. */
  lemma ExportRowsPrefix(photos: seq<PhotoRecord>, i: nat, webRoot: Option<string>, files: map<string, Bytes>, decodes: Bytes -> bool)
    requires i < |photos|
    ensures ExportRows(photos[..i + 1], webRoot, files, decodes) ==
      match ExportRows(photos[..i], webRoot, files, decodes)
      case None => None
      case Some(s) => ExportRow(s, i, photos[i], webRoot, files, decodes)
  {
    var q := photos[..i + 1];
    assert q[..i] == photos[..i] && q[i] == photos[i];
    ExportRowsUnfold(q, webRoot, files, decodes);
  }

  lemma SnocLast<T>(xs: seq<T>)
    requires xs != []
    ensures xs[..|xs| - 1] + [xs[|xs| - 1]] == xs
  { }

  /** Some record fails exactly when one before the last or the last one
      does. */
  lemma RowFailsSnoc(photos: seq<PhotoRecord>, webRoot: Option<string>, files: map<string, Bytes>, decodes: Bytes -> bool)
    requires photos != []
    ensures var n := |photos| - 1;
      (exists i :: 0 <= i < |photos| && RowFails(photos[i], webRoot, files, decodes)) <==>
      (exists i :: 0 <= i < n && RowFails(photos[..n][i], webRoot, files, decodes)) || RowFails(photos[n], webRoot, files, decodes)
  {
    var n := |photos| - 1;
    if exists i :: 0 <= i < n && RowFails(photos[..n][i], webRoot, files, decodes) {
      var i :| 0 <= i < n && RowFails(photos[..n][i], webRoot, files, decodes);
      assert photos[..n][i] == photos[i];
    }
    if exists i :: 0 <= i < |photos| && RowFails(photos[i], webRoot, files, decodes) {
      var i :| 0 <= i < |photos| && RowFails(photos[i], webRoot, files, decodes);
      if i < n { assert photos[..n][i] == photos[i]; }
    }
  }

  /** A failure on some record fails the whole export. */
  lemma ExportFailsEarly(photos: seq<PhotoRecord>, i: nat, webRoot: Option<string>, files: map<string, Bytes>, decodes: Bytes -> bool)
    requires i <= |photos| && ExportRows(photos[..i], webRoot, files, decodes).None?
    ensures ExportRows(photos, webRoot, files, decodes).None?
  {
    ExportRowsLayout(photos[..i], webRoot, files, decodes);
    ExportRowsLayout(photos, webRoot, files, decodes);
    var j :| 0 <= j < i && RowFails(photos[..i][j], webRoot, files, decodes);
    assert photos[..i][j] == photos[j];
  }

  // ---------------------------------------------------------- controller

  /** PhotosController with its injected IWebHostEnvironment: WebRootPath
      (None for null). */
  class PhotosController {
    const webRoot: Option<string>

    constructor (webRoot: Option<string>)
      ensures this.webRoot == webRoot
    {
      this.webRoot := webRoot;
    }

    /** Saving an accepted upload: the uploads folder is created when
        missing and the file written. */
    method SaveFile(fs: FileSystem, w: string, guid: string, f: FormFile) returns (name: string)
      modifies fs
      ensures name == ImageName(guid, GetExtension(f.fileName))
      ensures fs.View() == SaveUpload(old(fs.View()), w, guid, f)
    {
      var uploads := Combine(w, "uploads");
      if !DirExists(fs.View(), uploads) {
        fs.CreateDirectory(uploads);
      }
      name := ImageName(guid, GetExtension(f.fileName));
      fs.WriteAllBytes(Combine(uploads, name), f.bytes);
    }

    method Create(store: PhotoStore, fs: FileSystem, model: PhotoRecord, valid: bool, file: Option<FormFile>,
                  guid: string, created: DateTime, updated: DateTime) returns (outcome: Outcome)
      requires store.Valid()
      modifies store, fs
      ensures store.Valid()
      ensures Run(outcome, store.photos, fs.View()) == CreateRun(webRoot, old(store.photos), old(store.lastId), old(fs.View()), model, valid, file, guid, created, updated)
      ensures store.lastId == SequenceAfter(old(store.lastId), old(store.photos), store.photos)
    {
      if !valid {
        return ShowForm([]);
      }
      var savedPath: Option<string> := None;
      var check := CheckUpload(file);
      if check.Rejected? {
        return ShowForm([check.error]);
      }
      if check.Accepted? {
        if webRoot.None? {
          return Unhandled;
        }
        var name := SaveFile(fs, webRoot.value, guid, check.file);
        savedPath := Some(UploadWebPath(name));
      }
      var _ := store.Add(NewPhoto(model, savedPath, created, updated));
      outcome := RedirectToIndex;
    }

    method Edit(store: PhotoStore, fs: FileSystem, id: int, model: PhotoRecord, valid: bool, file: Option<FormFile>,
                guid: string, now: DateTime) returns (outcome: Outcome)
      requires store.Valid()
      modifies store, fs
      ensures store.Valid()
      ensures Run(outcome, store.photos, fs.View()) == EditRun(webRoot, old(store.photos), old(fs.View()), id, model, valid, file, guid, now)
      ensures store.lastId == old(store.lastId)
    {
      if id != model.id {
        return NotFoundResult;
      }
      if !valid {
        return ShowForm([]);
      }
      var found := FindIndex(store.photos, id);
      if found.None? {
        return NotFoundResult;
      }
      var k := found.value;
      var existing := store.photos[k];
      var newPath: Option<string> := None;
      var check := CheckUpload(file);
      if check.Rejected? {
        return ShowForm([check.error]);
      }
      if check.Accepted? {
        if webRoot.None? {
          return Unhandled;
        }
        var name := SaveFile(fs, webRoot.value, guid, check.file);
        if !IsEmptyOpt(existing.photoPath) {
          var oldPath := WebFile(webRoot.value, existing.photoPath.value);
          if oldPath in fs.files {
            fs.Delete(oldPath);
          }
        }
        newPath := Some(UploadWebPath(name));
      }
      store.Put(k, EditRecord(existing, model, newPath, now));
      outcome := RedirectToIndex;
    }

    method DeleteConfirmed(store: PhotoStore, fs: FileSystem, id: int) returns (outcome: Outcome)
      requires store.Valid()
      modifies store, fs
      ensures store.Valid()
      ensures Run(outcome, store.photos, fs.View()) == DeleteRun(webRoot, old(store.photos), old(fs.View()), id)
      ensures store.lastId == old(store.lastId)
    {
      var found := FindIndex(store.photos, id);
      if found.None? {
        return RedirectToIndex;
      }
      var k := found.value;
      var photo := store.photos[k];
      if !IsEmptyOpt(photo.photoPath) {
        if webRoot.None? {
          return Unhandled;
        }
        var filePath := WebFile(webRoot.value, photo.photoPath.value);
        if filePath in fs.files {
          fs.Delete(filePath);
        }
      }
      store.Remove(k);
      outcome := RedirectToIndex;
    }

    /** Import: the Excel workbook's rows become records, added together
        when there is at least one. */
    method Import(store: PhotoStore, fs: FileSystem, upload: Option<Workbook>, env: ImportEnv) returns (outcome: ImportOutcome)
      requires store.Valid()
      modifies store, fs
      ensures store.Valid()
      ensures var r := ImportRunOf(webRoot, old(fs.View()), upload, env);
        outcome == r.outcome && fs.View() == r.disk && store.photos == InsertAll(old(store.photos), old(store.lastId), r.added)
        && store.lastId == SequenceAfter(old(store.lastId), old(store.photos), store.photos)
    {
      if upload.None? || upload.value.length == 0 {
        return ImportForm(NoDataMessage);
      }
      if webRoot.None? {
        return ImportUnhandled;
      }
      var wb := upload.value;
      var uploads := Combine(webRoot.value, "uploads");
      if !DirExists(fs.View(), uploads) {
        fs.CreateDirectory(uploads);
      }
      assert fs.View() == EnsureDir(old(fs.View()), uploads);
      var read, records, warnings := ReadUpload(fs, uploads, wb, env);
      if !read {
        return ImportForm(NoSheetMessage);
      }
      if |records| > 0 {
        store.AddRange(records);
      }
      outcome := ImportDone(ResultLine(|records|, |warnings|), Join(warnings, "\n"));
    }

    /** ExportCsv: the records newest first, as "vzorky.csv". */
    method ExportCsv(store: PhotoStore) returns (outcome: Outcome)
      ensures outcome == Download(CsvDocument(NewestFirstOrder(store.photos)), "text/csv", "vzorky.csv")
    {
      var data := NewestFirstOrder(store.photos);
      var text := BuildCsv(data);
      outcome := Download(text, "text/csv", "vzorky.csv");
    }

    /** ExportZip's header loop and record loop. */
    method ExportZip(store: PhotoStore, fs: FileSystem, decodes: Bytes -> bool) returns (outcome: Outcome)
      ensures outcome == ExportZipRun(webRoot, store.photos, fs.files, decodes)
    {
      var photos := ByIdOrder(store.photos);
      var ws := new Worksheet("Vzorky");
      WriteHeader(ws);
      for i := 0 to |photos|
        invariant ExportRows(photos[..i], webRoot, fs.files, decodes) == Some(ws.View())
      {
        ExportRowsPrefix(photos, i, webRoot, fs.files, decodes);
        var ok := ExportRecord(ws, fs, i, photos[i], decodes);
        if !ok {
          ExportFailsEarly(photos, i + 1, webRoot, fs.files, decodes);
          return Unhandled;
        }
      }
      assert photos[..|photos|] == photos;
      outcome := SheetDownload(ws.View(), "vzorky_s_obrazky.xlsx");
    }

    /** One pass of the record loop: the row's values, then the picture. */
    method ExportRecord(ws: Worksheet, fs: FileSystem, i: nat, p: PhotoRecord, decodes: Bytes -> bool) returns (ok: bool)
      modifies ws
      ensures ok <==> ExportRow(old(ws.View()), i, p, webRoot, fs.files, decodes).Some?
      ensures ok ==> ExportRow(old(ws.View()), i, p, webRoot, fs.files, decodes) == Some(ws.View())
    {
      var row := i + 2;
      WriteRow(ws, row, p);
      if !IsEmptyOpt(p.imagePath) {
        if webRoot.None? {
          return false;
        }
        var fullPath := WebFile(webRoot.value, p.imagePath.value);
        if fullPath in fs.files {
          var loaded := ws.AddPicture(PictureName(row), fs.files[fullPath], row - 1, 12, decodes);
          if !loaded {
            return false;
          }
        }
      }
      ok := true;
    }
  }

  /** The header loop over the thirteen column names. */
  method WriteHeader(ws: Worksheet)
    requires ws.View() == EmptySheet
    modifies ws
    ensures ws.View() == HeaderSheet()
  {
    for c := 0 to 13
      invariant ws.View() == PutRow(EmptySheet, 1, HeaderValues()[..c])
    {
      PutRowStep(EmptySheet, 1, HeaderValues(), c + 1);
      ws.SetValue(1, c + 1, Some(Headers[c]));
    }
    assert HeaderValues()[..13] == HeaderValues();
  }

  /** The twelve cell assignments of a record's row, column 1 to 12. */
  method WriteRow(ws: Worksheet, row: int, p: PhotoRecord)
    modifies ws
    ensures ws.View() == PutRow(old(ws.View()), row, SheetFields(p))
  {
    ghost var s := ws.View();
    var vals := SheetFields(p);
    for c := 0 to 12
      invariant ws.View() == PutRow(s, row, vals[..c])
    {
      PutRowStep(s, row, vals, c + 1);
      ws.SetValue(row, c + 1, vals[c]);
    }
    assert vals[..12] == vals;
  }
}
