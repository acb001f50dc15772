/** The catalogue's one entity, PhotoRecord, with the DateTime values it
    carries, the file names the controllers give uploaded images, and the
    mapping from a stored web path to the file it names under the web
    root. */
module Records {
  import opened Text
  import opened Paths

  // ------------------------------------------------------------ DateTime

  /** A DateTime to the tick: the calendar fields DateTime exposes and the
      ticks (100 ns) within the second. */
  datatype DateTime = DateTime(year: nat, month: nat, day: nat, hour: nat, minute: nat, second: nat, tick: nat)

  /** The ranges DateTime guarantees for its fields. */
  predicate ValidDate(t: DateTime) {
    1 <= t.year <= 9999 && 1 <= t.month <= 12 && 1 <= t.day <= 31
    && t.hour < 24 && t.minute < 60 && t.second < 60 && t.tick < 10000000
  }

  /** A count that orders DateTime values chronologically (field by field,
      year first), as the database's ORDER BY on the stored timestamp does. */
  function Instant(t: DateTime): int {
    (((((t.year * 13 + t.month) * 32 + t.day) * 24 + t.hour) * 60 + t.minute) * 60 + t.second) * 10000000 + t.tick
  }

  function Pow10(k: nat): nat {
    if k == 0 then 1 else 10 * Pow10(k - 1)
  }

  lemma {:induction false} NatToStringShort(n: nat, w: nat)
    requires w >= 1 && n < Pow10(w)
    ensures |NatToString(n)| <= w
  {
    if n >= 10 {
      NatToStringShort(n / 10, w - 1);
    }
  }

  lemma PadNatExact(n: nat, w: nat)
    requires w >= 1 && n < Pow10(w)
    ensures |PadNat(n, w)| == w
  {
    NatToStringShort(n, w);
  }

  /** The custom format "yyyy-MM-dd HH:mm", with ':' as the time separator
      and the Gregorian calendar of the invariant culture. */
  function FormatMinutes(t: DateTime): (r: string)
    ensures forall i :: 0 <= i < |r| ==> IsDigit(r[i]) || r[i] == '-' || r[i] == ' ' || r[i] == ':'
  {
    PadNat(t.year, 4) + "-" + PadNat(t.month, 2) + "-" + PadNat(t.day, 2) + " " + PadNat(t.hour, 2) + ":" + PadNat(t.minute, 2)
  }

  /** A valid DateTime formats to exactly sixteen characters, with its
      separators in the fixed places the format puts them. */
  lemma FormatMinutesShape(t: DateTime)
    requires ValidDate(t)
    ensures var r := FormatMinutes(t);
      |r| == 16 && r[4] == '-' && r[7] == '-' && r[10] == ' ' && r[13] == ':'
  {
    assert Pow10(2) == 100 && Pow10(4) == 10000 by {
      assert Pow10(1) == 10;
      assert Pow10(3) == 1000;
    }
    PadNatExact(t.year, 4);
    PadNatExact(t.month, 2);
    PadNatExact(t.day, 2);
    PadNatExact(t.hour, 2);
    PadNatExact(t.minute, 2);
  }

  // --------------------------------------------------------- PhotoRecord

  /** PhotoRecord: nullable string properties are Option<string>; Code is
      the one non-nullable string. kind is the Type property. */
  datatype PhotoRecord = PhotoRecord(
    id: int,
    position: Option<string>,
    externalId: Option<string>,
    supplier: Option<string>,
    originalName: Option<string>,
    name: Option<string>,
    code: string,
    kind: Option<string>,
    material: Option<string>,
    form: Option<string>,
    filler: Option<string>,
    color: Option<string>,
    description: Option<string>,
    monthlyQuantity: Option<string>,
    mfi: Option<string>,
    notes: Option<string>,
    photoFileName: Option<string>,
    photoPath: Option<string>,
    imagePath: Option<string>,
    createdAt: DateTime,
    updatedAt: DateTime)

  /** new PhotoRecord { CreatedAt = DateTime.UtcNow, UpdatedAt =
      DateTime.UtcNow }, the clock read once for each: the property
      initialisers leave Supplier, OriginalName, Name, Type and Notes ""
      and Code "", every other string null, and Id 0 until the database
      assigns one. */
  function Fresh(created: DateTime, updated: DateTime): (r: PhotoRecord)
    ensures r.id == 0 && r.createdAt == created && r.updatedAt == updated
    ensures r.supplier == Some("") && r.originalName == Some("") && r.name == Some("")
    ensures r.code == "" && r.kind == Some("") && r.notes == Some("")
    ensures r.position.None? && r.externalId.None? && r.material.None? && r.form.None? && r.filler.None?
    ensures r.color.None? && r.description.None? && r.monthlyQuantity.None? && r.mfi.None?
    ensures r.photoFileName.None? && r.photoPath.None? && r.imagePath.None?
  {
    PhotoRecord(0, None, None, Some(""), Some(""), Some(""), "", Some(""),
      None, None, None, None, None, None, None, Some(""), None, None, None, created, updated)
  }

  // --------------------------------------------------------- image files

  predicate IsHexOrDash(c: char) {
    '0' <= c <= '9' || 'a' <= c <= 'f' || c == '-'
  }

  /** Guid.NewGuid().ToString(): 36 lower-case hex digits and dashes. */
  predicate IsGuid(g: string) {
    |g| == 36 && forall i :: 0 <= i < |g| ==> IsHexOrDash(g[i])
  }

  /** "{guid}{ext}", the name an uploaded or imported image is stored
      under. */
  function ImageName(guid: string, ext: string): string {
    guid + ext
  }

  /** "/uploads/{name}", the web path a stored image is linked by. */
  function UploadWebPath(name: string): string {
    "/uploads/" + name
  }

  /** The file a stored web path such as "/uploads/x.png" names: the path
      without its leading '/' characters, '/' turned into '\', joined to
      the web root (Path.Combine(WebRootPath, p.TrimStart('/').Replace('/',
      '\'))). */
  function WebFile(webRoot: string, path: string): string {
    Combine(webRoot, ToBackslash(TrimStartChar(path, '/')))
  }

  /** A GUID with an extension taken by Path.GetExtension from some file
      name is a plain file name: no separator, no drive, not empty. */
  lemma ImageNamePlain(guid: string, file: string)
    requires IsGuid(guid)
    ensures var n := ImageName(guid, GetExtension(file));
      n != "" && !IsPathRooted(n) && forall k :: 0 <= k < |n| ==> !IsSep(n[k])
  {
    var ext := GetExtension(file);
    var n := ImageName(guid, ext);
    var name := GetFileName(file);
    assert forall k :: 0 <= k < |ext| ==> !IsSep(ext[k]) by {
      match LastDot(name, |name|)
      case None =>
      case Some(j) =>
        if j != |name| - 1 {
          assert ext == name[j..];
          forall k | 0 <= k < |ext| ensures !IsSep(ext[k]) {
            assert ext[k] == name[j + k];
          }
        }
    }
    forall k | 0 <= k < |n| ensures !IsSep(n[k]) {
      if k < |guid| { assert n[k] == guid[k] && IsHexOrDash(guid[k]); }
      else { assert n[k] == ext[k - |guid|]; }
    }
    assert n[1] == guid[1] && IsHexOrDash(guid[1]);
  }

  /** TrimStart('/') drops exactly one leading '/' when the next character
      is another. */
  lemma TrimOneSlash(rest: string)
    requires rest != [] && rest[0] != '/'
    ensures TrimStartChar(['/'] + rest, '/') == rest
  {
    var p := ['/'] + rest;
    var keep := TrimStartChar(p, '/');
    assert keep == p[|p| - |keep|..];
    assert p[1] == rest[0] && p[1..] == rest;
  }

  lemma ToBackslashKeeps(s: string)
    requires forall k :: 0 <= k < |s| ==> s[k] != AltSep
    ensures ToBackslash(s) == s
  {
    var r := ToBackslash(s);
    forall k | 0 <= k < |s| ensures r[k] == s[k] { }
  }

  lemma UploadRelative(name: string)
    requires forall k :: 0 <= k < |name| ==> !IsSep(name[k])
    ensures ToBackslash(TrimStartChar(UploadWebPath(name), '/')) == "uploads" + [Sep] + name
  {
    assert UploadWebPath(name) == ['/'] + ("uploads/" + name);
    TrimOneSlash("uploads/" + name);
    ReplaceCharAppend("uploads/", name, AltSep, Sep);
    UploadsPrefixes();
    ToBackslashKeeps(name);
  }

  /** The file Create and Edit write an upload to, Combine(Combine(webRoot,
      "uploads"), name), is the file the stored web path "/uploads/"+name
      names again when Edit or Delete later looks for it. */
  lemma UploadFileFound(webRoot: string, name: string)
    requires webRoot != "" && !EndsWithSep(webRoot)
    requires name != "" && !IsPathRooted(name) && forall k :: 0 <= k < |name| ==> !IsSep(name[k])
    ensures WebFile(webRoot, UploadWebPath(name)) == Combine(Combine(webRoot, "uploads"), name)
  {
    UploadRelative(name);
    var b := "uploads" + [Sep] + name;
    assert !IsPathRooted(b) by { assert b[0] == 'u' && b[1] == 'p'; }
    CombineUnder(webRoot, b);
    CombineUnder(webRoot, "uploads");
    var u := Combine(webRoot, "uploads");
    assert u != "" && !EndsWithSep(u);
    CombineUnder(u, name);
  }

  /** The web path is trusted as it stands: a stored path that spells a
      drive after its leading '/' names a file anywhere on the machine,
      outside the web root. */
  lemma WebFileEscapesRoot(webRoot: string, drive: char, rest: string)
    requires IsDriveLetter(drive) && forall k :: 0 <= k < |rest| ==> rest[k] != AltSep
    ensures WebFile(webRoot, ['/', drive, ':', '/'] + rest) == [drive, ':', Sep] + rest
  {
    var head := [drive, ':', '/'];
    assert ['/', drive, ':', '/'] + rest == ['/'] + (head + rest);
    TrimOneSlash(head + rest);
    ReplaceCharAppend(head, rest, AltSep, Sep);
    ToBackslashKeeps(rest);
    var b := ToBackslash(head + rest);
    assert ToBackslash(head) == [drive, ':', Sep];
    assert b == [drive, ':', Sep] + rest;
    assert IsPathRooted(b);
  }
}
