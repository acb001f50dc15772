/** ZIP archives as the controllers build and unpack them: an ordered list
    of named entries (System.IO.Compression.ZipArchive), extraction into a
    folder with overwrite (ZipFile.ExtractToDirectory(zip, dir, true)),
    and the layout of a backup archive: "database.db" first, then every
    upload as "uploads/<relative path>". Compression is not modelled; an
    entry's data is its uncompressed content. */
module Zip {
  import opened Text
  import opened Paths
  import opened FileStore

  datatype Entry = Entry(name: string, data: Bytes)
  type Archive = seq<Entry>

  /** Entry names ending in a separator stand for directories. */
  predicate IsDirectoryEntry(name: string) {
    |name| > 0 && IsSep(name[|name| - 1])
  }

  /** Names extraction refuses with an IOException: the empty name, a
      rooted one, or one with a ".." segment. */
  predicate Refused(name: string) {
    name == "" || IsPathRooted(ToBackslash(name)) || ClimbsOut(name)
  }

  /** Where a file entry is written. */
  function EntryPath(dir: string, name: string): string {
    Combine(dir, ToBackslash(name))
  }

  /** Extracting one entry: a directory entry creates the directory, a
      file entry writes (or overwrites) its file. */
  function ApplyEntry(d: Disk, dir: string, e: Entry): Disk {
    if IsDirectoryEntry(e.name) then MakeDir(d, Combine(dir, ToBackslash(e.name[..|e.name| - 1])))
    else WriteFile(d, EntryPath(dir, e.name), e.data)
  }

  /** The outcome of ExtractToDirectory: done, or stopped by an exception
      at the first refused entry, with the entries before it written. */
  datatype Extraction = Extracted(disk: Disk) | ExtractFailed(disk: Disk)

  function ExtractAll(d: Disk, dir: string, a: Archive): (r: Extraction)
    decreases |a|
  {
    if a == [] then Extracted(d)
    else if Refused(a[0].name) then ExtractFailed(d)
    else ExtractAll(ApplyEntry(d, dir, a[0]), dir, a[1..])
  }

  /** The data the last file entry written to path key leaves there. */
  function LastWrite(a: Archive, dir: string, key: string): Option<Bytes>
    decreases |a|
  {
    if a == [] then None
    else
      match LastWrite(a[1..], dir, key)
      case Some(b) => Some(b)
      case None =>
        if !IsDirectoryEntry(a[0].name) && EntryPath(dir, a[0].name) == key then Some(a[0].data) else None
  }

  predicate NoneRefused(a: Archive) {
    forall i :: 0 <= i < |a| ==> !Refused(a[i].name)
  }

  /** An accepted entry name lands strictly inside the folder. */
  lemma AcceptedInside(dir: string, name: string)
    requires dir != "" && !EndsWithSep(dir) && !Refused(name)
    ensures Under(EntryPath(dir, name), dir)
  {
    CombineUnder(dir, ToBackslash(name));
  }

  /** Extraction writes nothing outside the folder, whether it completes
      or stops at a refused entry. */
  lemma {:induction false} ExtractStaysInside(d: Disk, dir: string, a: Archive)
    requires dir != "" && !EndsWithSep(dir)
    ensures var r := ExtractAll(d, dir, a).disk;
      forall p :: !Under(p, dir) ==> (p in r.files <==> p in d.files) && (p in d.files ==> r.files[p] == d.files[p])
    decreases |a|
  {
    if a != [] && !Refused(a[0].name) {
      if !IsDirectoryEntry(a[0].name) { AcceptedInside(dir, a[0].name); }
      ExtractStaysInside(ApplyEntry(d, dir, a[0]), dir, a[1..]);
    }
  }

  /** Extraction completes exactly when no entry is refused. */
  lemma {:induction false} ExtractCompletes(d: Disk, dir: string, a: Archive)
    ensures ExtractAll(d, dir, a).Extracted? <==> NoneRefused(a)
    decreases |a|
  {
    if a != [] {
      if !Refused(a[0].name) {
        ExtractCompletes(ApplyEntry(d, dir, a[0]), dir, a[1..]);
        assert forall i :: 1 <= i < |a| ==> a[i] == a[1..][i - 1];
      }
    }
  }

  /** After a completed extraction each path holds what the last file
      entry written to it carried, or what it held before when no entry
      wrote to it. */
  lemma {:induction false} ExtractedContents(d: Disk, dir: string, a: Archive, key: string)
    requires ExtractAll(d, dir, a).Extracted?
    ensures var r := ExtractAll(d, dir, a).disk;
      match LastWrite(a, dir, key)
      case Some(b) => key in r.files && r.files[key] == b
      case None => (key in r.files <==> key in d.files) && (key in d.files ==> r.files[key] == d.files[key])
    decreases |a|
  {
    if a != [] {
      ExtractedContents(ApplyEntry(d, dir, a[0]), dir, a[1..], key);
    }
  }

  // ------------------------------------------------------- backup layout

  const DbEntryName: string := "database.db"

  /** Path.Combine("uploads", relPath).Replace('\\', '/') where relPath is
      the file's path relative to the uploads folder, already with '/'. */
  function UploadEntryName(rel: string): string {
    ToSlash(Combine("uploads", ToSlash(rel)))
  }

  /** The archive a backup produces from the database snapshot and the
      uploads, given as relative path and contents in listing order. */
  function BackupLayout(db: Bytes, uploads: seq<(string, Bytes)>): (r: Archive)
    ensures |r| == 1 + |uploads| && r[0] == Entry(DbEntryName, db)
    ensures forall i :: 0 <= i < |uploads| ==> r[i + 1] == Entry(UploadEntryName(uploads[i].0), uploads[i].1)
  {
    var rest := seq(|uploads|, i requires 0 <= i < |uploads| => Entry(UploadEntryName(uploads[i].0), uploads[i].1));
    assert forall i :: 0 <= i < |uploads| ==> ([Entry(DbEntryName, db)] + rest)[i + 1] == rest[i];
    [Entry(DbEntryName, db)] + rest
  }

  /** An upload more adds its entry at the end. */
  lemma BackupLayoutSnoc(db: Bytes, uploads: seq<(string, Bytes)>, x: (string, Bytes))
    ensures BackupLayout(db, uploads + [x]) == BackupLayout(db, uploads) + [Entry(UploadEntryName(x.0), x.1)]
  {
    var l := BackupLayout(db, uploads + [x]);
    var r := BackupLayout(db, uploads) + [Entry(UploadEntryName(x.0), x.1)];
    forall k | 0 <= k < |l| ensures l[k] == r[k] {
      SnocEntry(db, uploads, x, k);
    }
    SameEntries(l, r);
  }

  lemma SnocEntry(db: Bytes, uploads: seq<(string, Bytes)>, x: (string, Bytes), k: nat)
    requires k <= |uploads| + 1
    ensures BackupLayout(db, uploads + [x])[k] == (BackupLayout(db, uploads) + [Entry(UploadEntryName(x.0), x.1)])[k]
  {
    var u := uploads + [x];
    if k > 0 {
      assert u[k - 1] == if k - 1 < |uploads| then uploads[k - 1] else x;
    }
  }

  /** Archives with the same entries are equal. */
  lemma SameEntries(a: Archive, l: Archive)
    requires |a| == |l| && forall k :: 0 <= k < |a| ==> a[k] == l[k]
    ensures a == l
  { }

  /** A relative path as Directory.GetFiles produces it for a file inside
      the uploads folder: not empty, not rooted, not ending in a separator,
      no '/', and no ".." segment. */
  predicate PlainRelative(rel: string) {
    rel != "" && !IsPathRooted(rel) && !EndsWithSep(rel) && !ContainsChar(rel, AltSep) && !ClimbsOut(rel)
  }

  lemma SlashName(rel: string)
    requires PlainRelative(rel)
    ensures UploadEntryName(rel) == "uploads/" + ToSlash(rel)
  {
    var s := ToSlash(rel);
    assert s[0] == rel[0];
    assert !IsPathRooted(s) by {
      if |s| >= 2 { assert (s[1] == ':') == (rel[1] == ':'); }
    }
    UploadsLetters();
    assert Combine("uploads", s) == "uploads" + [Sep] + s;
    ReplaceCharAppend("uploads" + [Sep], s, Sep, AltSep);
    UploadsPrefixes();
    assert ToSlash(s) == s by {
      forall k | 0 <= k < |s| ensures ToSlash(s)[k] == s[k] {
        assert s[k] != Sep;
      }
    }
  }

  lemma BackslashName(rel: string)
    requires PlainRelative(rel)
    ensures ToBackslash("uploads/" + ToSlash(rel)) == "uploads" + [Sep] + rel
  {
    ReplaceCharAppend("uploads/", ToSlash(rel), AltSep, Sep);
    BackslashSlash(rel);
    UploadsPrefixes();
  }

  lemma NameNotClimbing(rel: string)
    requires PlainRelative(rel)
    ensures !ClimbsOut("uploads/" + ToSlash(rel))
  {
    BackslashName(rel);
    ToBackslashFixed(rel);
    SplitPrefix("uploads", rel, Sep);
    var parts := Split("uploads" + [Sep] + rel, Sep);
    forall k | 0 <= k < |parts| ensures parts[k] != ".." {
      if k > 0 { assert parts[k] == Split(ToBackslash(rel), Sep)[k - 1]; }
    }
  }

  /** Where an upload entry lands when extracted into dir. */
  lemma UploadEntryPath(dir: string, rel: string)
    requires PlainRelative(rel)
    ensures ToBackslash(UploadEntryName(rel)) == "uploads" + [Sep] + rel
    ensures !Refused(UploadEntryName(rel)) && !IsDirectoryEntry(UploadEntryName(rel))
    ensures EntryPath(dir, UploadEntryName(rel)) == Combine(dir, "uploads" + [Sep] + rel)
  {
    SlashName(rel);
    BackslashName(rel);
    NameNotClimbing(rel);
    var n := "uploads/" + ToSlash(rel);
    assert n[|n| - 1] == ToSlash(rel)[|rel| - 1];
  }

  lemma ToBackslashFixed(b: string)
    requires !ContainsChar(b, AltSep)
    ensures ToBackslash(b) == b
  {
    var r := ToBackslash(b);
    forall k | 0 <= k < |b| ensures r[k] == b[k] {
      assert b[k] != AltSep;
    }
  }

  predicate WritesTo(e: Entry, dir: string, key: string) {
    !IsDirectoryEntry(e.name) && EntryPath(dir, e.name) == key
  }

  /** The last entry that writes a path decides its contents. */
  lemma {:induction false} LastWriteIs(a: Archive, dir: string, key: string, i: nat)
    requires i < |a| && WritesTo(a[i], dir, key)
    requires forall j :: i < j < |a| ==> !WritesTo(a[j], dir, key)
    ensures LastWrite(a, dir, key) == Some(a[i].data)
    decreases |a|
  {
    if i > 0 {
      LastWriteIs(a[1..], dir, key, i - 1);
    } else {
      LastWriteNone(a[1..], dir, key);
    }
  }

  lemma {:induction false} LastWriteNone(a: Archive, dir: string, key: string)
    requires forall j :: 0 <= j < |a| ==> !WritesTo(a[j], dir, key)
    ensures LastWrite(a, dir, key) == None
    decreases |a|
  {
    if a != [] {
      LastWriteNone(a[1..], dir, key);
    }
  }

  /** A single-segment name other than ".." is accepted as it is. */
  lemma PlainNameAccepted(n: string)
    requires n != "" && n != ".." && (|n| >= 2 ==> n[1] != ':')
    requires forall k :: 0 <= k < |n| ==> !IsSep(n[k])
    ensures !Refused(n) && !IsDirectoryEntry(n) && ToBackslash(n) == n
  {
    ToBackslashFixed(n);
    SplitNoSep(n, Sep);
  }

  lemma DbEntryAccepted()
    ensures !Refused(DbEntryName) && !IsDirectoryEntry(DbEntryName)
    ensures ToBackslash(DbEntryName) == DbEntryName
  {
    var n := DbEntryName;
    assert n[1] == 'a';
    assert forall k :: 0 <= k < |n| ==> !IsSep(n[k]);
    PlainNameAccepted(n);
  }

  lemma LayoutAccepted(db: Bytes, uploads: seq<(string, Bytes)>)
    requires forall i :: 0 <= i < |uploads| ==> PlainRelative(uploads[i].0)
    ensures NoneRefused(BackupLayout(db, uploads))
  {
    var a := BackupLayout(db, uploads);
    DbEntryAccepted();
    forall k | 0 <= k < |a| ensures !Refused(a[k].name) {
      if k > 0 {
        UploadAccepted(db, uploads, k);
      }
    }
  }

  /** Entry k > 0 of a backup archive carries an accepted name. */
  lemma UploadAccepted(db: Bytes, uploads: seq<(string, Bytes)>, k: nat)
    requires 0 < k <= |uploads| && PlainRelative(uploads[k - 1].0)
    ensures !Refused(BackupLayout(db, uploads)[k].name)
  {
    var rel := uploads[k - 1].0;
    assert BackupLayout(db, uploads)[k].name == UploadEntryName(rel);
    UploadEntryAccepted(rel);
  }

  lemma UploadEntryAccepted(rel: string)
    requires PlainRelative(rel)
    ensures !Refused(UploadEntryName(rel))
  {
    UploadEntryPath("", rel);
  }

  /** Only the first entry of a backup archive writes <folder>\database.db. */
  lemma DbWrittenOnce(dir: string, db: Bytes, uploads: seq<(string, Bytes)>)
    requires dir != "" && !EndsWithSep(dir)
    requires forall i :: 0 <= i < |uploads| ==> PlainRelative(uploads[i].0)
    ensures LastWrite(BackupLayout(db, uploads), dir, Combine(dir, DbEntryName)) == Some(db)
  {
    var a := BackupLayout(db, uploads);
    var dbKey := Combine(dir, DbEntryName);
    DbEntryAccepted();
    CombineUnder(dir, DbEntryName);
    forall j | 0 < j < |a| ensures !WritesTo(a[j], dir, dbKey) {
      UploadNotDb(dir, db, uploads, j);
    }
    LastWriteIs(a, dir, dbKey, 0);
  }

  /** An upload entry does not write <folder>\database.db. */
  lemma UploadNotDb(dir: string, db: Bytes, uploads: seq<(string, Bytes)>, j: nat)
    requires dir != "" && !EndsWithSep(dir)
    requires 0 < j <= |uploads| && PlainRelative(uploads[j - 1].0)
    ensures !WritesTo(BackupLayout(db, uploads)[j], dir, Combine(dir, DbEntryName))
  {
    var rel := uploads[j - 1].0;
    var dbKey := Combine(dir, DbEntryName);
    var name := BackupLayout(db, uploads)[j].name;
    assert name == UploadEntryName(rel);
    UploadEntryPath(dir, rel);
    CombineUnder(dir, DbEntryName);
    CombineUnder(dir, "uploads" + [Sep] + rel);
    assert EntryPath(dir, name)[|dir| + 1] == 'u';
    assert dbKey[|dir| + 1] == 'd';
  }

  /** Upload i is the last (only) entry writing its path. */
  lemma UploadWrittenOnce(dir: string, db: Bytes, uploads: seq<(string, Bytes)>, i: nat)
    requires dir != "" && !EndsWithSep(dir)
    requires forall i :: 0 <= i < |uploads| ==> PlainRelative(uploads[i].0)
    requires forall i, j :: 0 <= i < j < |uploads| ==> uploads[i].0 != uploads[j].0
    requires i < |uploads|
    ensures LastWrite(BackupLayout(db, uploads), dir, Combine(dir, "uploads" + [Sep] + uploads[i].0)) == Some(uploads[i].1)
  {
    var a := BackupLayout(db, uploads);
    var rel := uploads[i].0;
    var key := Combine(dir, "uploads" + [Sep] + rel);
    UploadEntryPath(dir, rel);
    assert WritesTo(a[i + 1], dir, key);
    forall j | i + 1 < j < |a| ensures !WritesTo(a[j], dir, key) {
      var relj := uploads[j - 1].0;
      assert a[j].name == UploadEntryName(relj);
      UploadEntryPath(dir, relj);
      UploadKeysDiffer(dir, rel, relj);
    }
    LastWriteIs(a, dir, key, i + 1);
  }

  /** Extracting a backup archive into a folder completes and gives back
      the database as <folder>\database.db and each upload at
      <folder>\uploads\<relative path> with its contents. */
  lemma LayoutRoundTrip(d: Disk, dir: string, db: Bytes, uploads: seq<(string, Bytes)>)
    requires dir != "" && !EndsWithSep(dir)
    requires forall i :: 0 <= i < |uploads| ==> PlainRelative(uploads[i].0)
    requires forall i, j :: 0 <= i < j < |uploads| ==> uploads[i].0 != uploads[j].0
    ensures ExtractAll(d, dir, BackupLayout(db, uploads)).Extracted?
    ensures var r := ExtractAll(d, dir, BackupLayout(db, uploads)).disk;
      Combine(dir, DbEntryName) in r.files && r.files[Combine(dir, DbEntryName)] == db
      && forall i :: 0 <= i < |uploads| ==>
           Combine(dir, "uploads" + [Sep] + uploads[i].0) in r.files
           && r.files[Combine(dir, "uploads" + [Sep] + uploads[i].0)] == uploads[i].1
  {
    LayoutAccepted(db, uploads);
    ExtractCompletes(d, dir, BackupLayout(db, uploads));
    DbExtracted(d, dir, db, uploads);
    UploadsExtracted(d, dir, db, uploads);
  }

  lemma UploadsExtracted(d: Disk, dir: string, db: Bytes, uploads: seq<(string, Bytes)>)
    requires dir != "" && !EndsWithSep(dir)
    requires forall i :: 0 <= i < |uploads| ==> PlainRelative(uploads[i].0)
    requires forall i, j :: 0 <= i < j < |uploads| ==> uploads[i].0 != uploads[j].0
    requires ExtractAll(d, dir, BackupLayout(db, uploads)).Extracted?
    ensures var r := ExtractAll(d, dir, BackupLayout(db, uploads)).disk;
      forall i :: 0 <= i < |uploads| ==>
        Combine(dir, "uploads" + [Sep] + uploads[i].0) in r.files
        && r.files[Combine(dir, "uploads" + [Sep] + uploads[i].0)] == uploads[i].1
  {
    var r := ExtractAll(d, dir, BackupLayout(db, uploads)).disk;
    forall i | 0 <= i < |uploads|
      ensures Combine(dir, "uploads" + [Sep] + uploads[i].0) in r.files
        && r.files[Combine(dir, "uploads" + [Sep] + uploads[i].0)] == uploads[i].1
    {
      UploadExtracted(d, dir, db, uploads, i);
    }
  }

  lemma DbExtracted(d: Disk, dir: string, db: Bytes, uploads: seq<(string, Bytes)>)
    requires dir != "" && !EndsWithSep(dir)
    requires forall i :: 0 <= i < |uploads| ==> PlainRelative(uploads[i].0)
    requires ExtractAll(d, dir, BackupLayout(db, uploads)).Extracted?
    ensures var r := ExtractAll(d, dir, BackupLayout(db, uploads)).disk;
      Combine(dir, DbEntryName) in r.files && r.files[Combine(dir, DbEntryName)] == db
  {
    DbWrittenOnce(dir, db, uploads);
    ExtractedContents(d, dir, BackupLayout(db, uploads), Combine(dir, DbEntryName));
  }

  lemma UploadExtracted(d: Disk, dir: string, db: Bytes, uploads: seq<(string, Bytes)>, i: nat)
    requires dir != "" && !EndsWithSep(dir)
    requires forall i :: 0 <= i < |uploads| ==> PlainRelative(uploads[i].0)
    requires forall i, j :: 0 <= i < j < |uploads| ==> uploads[i].0 != uploads[j].0
    requires i < |uploads| && ExtractAll(d, dir, BackupLayout(db, uploads)).Extracted?
    ensures var r := ExtractAll(d, dir, BackupLayout(db, uploads)).disk;
      Combine(dir, "uploads" + [Sep] + uploads[i].0) in r.files
      && r.files[Combine(dir, "uploads" + [Sep] + uploads[i].0)] == uploads[i].1
  {
    UploadWrittenOnce(dir, db, uploads, i);
    ExtractedContents(d, dir, BackupLayout(db, uploads), Combine(dir, "uploads" + [Sep] + uploads[i].0));
  }

  /** Some entry writes every path LastWrite finds. */
  lemma {:induction false} LastWriteFrom(a: Archive, dir: string, key: string)
    requires LastWrite(a, dir, key).Some?
    ensures exists j :: 0 <= j < |a| && WritesTo(a[j], dir, key)
    decreases |a|
  {
    if LastWrite(a[1..], dir, key).Some? {
      LastWriteFrom(a[1..], dir, key);
      var j :| 0 <= j < |a| - 1 && WritesTo(a[1..][j], dir, key);
      assert a[j + 1] == a[1..][j];
    } else {
      assert WritesTo(a[0], dir, key);
    }
  }

  /** Extracting a backup archive into a folder whose uploads subfolder
      held no file puts there only the archive's uploads. */
  lemma LayoutUploadsOnly(d: Disk, dir: string, db: Bytes, uploads: seq<(string, Bytes)>, f: string)
    requires dir != "" && !EndsWithSep(dir)
    requires forall i :: 0 <= i < |uploads| ==> PlainRelative(uploads[i].0)
    requires ExtractAll(d, dir, BackupLayout(db, uploads)).Extracted?
    requires forall g :: g in d.files ==> !Under(g, Combine(dir, "uploads"))
    requires f in ExtractAll(d, dir, BackupLayout(db, uploads)).disk.files && Under(f, Combine(dir, "uploads"))
    ensures exists i :: 0 <= i < |uploads| && f == Combine(dir, "uploads" + [Sep] + uploads[i].0)
  {
    var a := BackupLayout(db, uploads);
    assert f !in d.files;
    ExtractedContents(d, dir, a, f);
    LastWriteFrom(a, dir, f);
    var j :| 0 <= j < |a| && WritesTo(a[j], dir, f);
    if j == 0 {
      DbNotInUploads(dir);
      assert false;
    } else {
      assert a[j].name == UploadEntryName(uploads[j - 1].0);
      UploadEntryPath(dir, uploads[j - 1].0);
    }
  }

  /** database.db is written beside the uploads subfolder, not inside it. */
  lemma DbNotInUploads(dir: string)
    requires dir != "" && !EndsWithSep(dir)
    ensures !Under(EntryPath(dir, DbEntryName), Combine(dir, "uploads"))
  {
    DbEntryPath(dir);
    UploadsPath(dir);
    SiblingsApart(dir, DbEntryName, "uploads");
  }

  lemma DbEntryPath(dir: string)
    requires dir != "" && !EndsWithSep(dir)
    ensures EntryPath(dir, DbEntryName) == dir + [Sep] + DbEntryName && DbEntryName[0] == 'd'
  {
    DbEntryAccepted();
    CombineUnder(dir, DbEntryName);
  }

  lemma UploadsPath(dir: string)
    requires dir != "" && !EndsWithSep(dir)
    ensures Combine(dir, "uploads") == dir + [Sep] + "uploads" && "uploads"[0] == 'u'
  {
    CombineUnder(dir, "uploads");
  }

  /** Names starting with different characters give paths neither of
      which lies inside the other. */
  lemma SiblingsApart(dir: string, a: string, b: string)
    requires a != "" && b != "" && a[0] != b[0]
    ensures !Under(dir + [Sep] + a, dir + [Sep] + b)
  {
    var f := dir + [Sep] + a;
    var u := dir + [Sep] + b;
    assert f[|dir| + 1] == a[0];
  }

  /** Upload entry names of plain relative paths differ when the paths do. */
  lemma UploadEntryNamesDiffer(r1: string, r2: string)
    requires PlainRelative(r1) && PlainRelative(r2) && UploadEntryName(r1) == UploadEntryName(r2)
    ensures r1 == r2
  {
    UploadEntryPath("", r1);
    UploadEntryPath("", r2);
    assert r1 == ("uploads" + [Sep] + r1)[8..];
    assert r2 == ("uploads" + [Sep] + r2)[8..];
  }

  lemma UploadKeysDiffer(dir: string, r1: string, r2: string)
    requires dir != "" && !EndsWithSep(dir) && PlainRelative(r1) && PlainRelative(r2) && r1 != r2
    ensures Combine(dir, "uploads" + [Sep] + r1) != Combine(dir, "uploads" + [Sep] + r2)
  {
    var p1 := "uploads" + [Sep] + r1;
    var p2 := "uploads" + [Sep] + r2;
    CombineUnder(dir, p1);
    CombineUnder(dir, p2);
    assert p1[8..] == r1 && p2[8..] == r2;
  }
}
