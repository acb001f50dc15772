/** What the two backup controllers share: the results their actions
    return, the uploaded file, the temporary paths they work in, and the
    wholesale replacement of the uploads folder during a restore. */
module Transfer {
  import opened Text
  import opened Paths
  import opened FileStore
  import opened Zip
  import opened Hosting

  /** An action's result. ZipDownload is a File result of type
      "application/zip". Unhandled is an exception that escapes the action;
      Blocked is an action that waits on the operation gate, which in a
      sequential run nobody releases. */
  datatype Response =
    | OkMessage(message: string)
    | ZipDownload(archive: Archive, fileName: string)
    | RedirectTo(action: string, controller: string)
    | BadRequest(message: string)
    | NotFound(message: string)
    | ServerError(message: string)
    | Unhandled
    | Blocked

  /** An uploaded IFormFile (null is None): its bytes, and what they read
      as when opened as a ZIP archive, None when they are not one. */
  datatype Upload = Upload(bytes: Bytes, archive: Option<Archive>)

  /** How an action, or a step sequence inside one, ended: its response
      and the file system. */
  datatype Step = Step(response: Response, disk: Disk)

  /** Path.GetTempPath()\photoapp_backup_{stamp}_{guid}.db, the snapshot a
      backup is zipped from. */
  function SnapshotPath(tempDir: string, stamp: string, guid: string): string {
    Combine(tempDir, "photoapp_backup_" + stamp + "_" + guid + ".db")
  }

  /** Path.GetTempPath()\photoapp_import_{guid}, the folder a restore
      unpacks into. */
  function ImportFolder(tempDir: string, guid: string): string {
    Combine(tempDir, "photoapp_import_" + guid)
  }

  /** Path.Combine(WebRootPath ?? "", "uploads"), the folder a backup
      collects, in both controllers. */
  function BackupUploads(h: Host): string {
    Combine(h.webRoot.GetOr(""), "uploads")
  }

  /** backup_{stamp}.zip, the download name of a backup. */
  function BackupZipName(stamp: string): string {
    "backup_" + stamp + ".zip"
  }

  /** Path.GetRelativePath(folder, f) for a file Directory.GetFiles listed
      under folder (it lists nothing else). */
  function UploadRel(folder: string, f: string): string {
    if Under(f, folder) then Relative(f, folder) else f
  }

  /** Deleting each path the response's completion callback names, when
      it is there. */
  function DeleteAfterResponse(d: Disk, paths: seq<string>): (r: Disk)
    ensures forall i :: 0 <= i < |paths| ==> paths[i] !in r.files
    ensures forall p :: p !in paths ==> (p in r.files <==> p in d.files) && (p in r.files ==> r.files[p] == d.files[p])
    ensures r.dirs == d.dirs
    decreases |paths|
  {
    if paths == [] then d
    else DeleteFile(DeleteAfterResponse(d, paths[..|paths| - 1]), paths[|paths| - 1])
  }

  /** The finally block of both restores: the temporary folder is
      deleted when it exists, and a failure to delete it is swallowed. */
  function RemoveTemp(d: Disk, tmp: string, ok: bool): (r: Disk)
    ensures ok ==> forall f :: f in r.files ==> !Under(f, tmp)
    ensures forall p :: !Under(p, tmp) ==> SameAt(r, d, p)
  {
    if DirExists(d, tmp) && ok then DeleteTree(d, tmp) else d
  }

  /** The uploads step of both restores, once the archive held an uploads
      folder: the live uploads folder is deleted when it exists, created
      again, and the extracted one is copied into it. */
  function ReplaceUploads(d: Disk, source: string, target: string, dirListing: seq<string>, listing: seq<string>): Disk
    requires |source| > 0
  {
    var cleared := if DirExists(d, target) then DeleteTree(d, target) else d;
    CopyTree(MakeDir(cleared, target), source, target, dirListing, listing)
  }

  /** Replacing the uploads is wholesale: afterwards the target folder
      holds every file of the source tree at the same relative path with
      the same contents and nothing else, and every file outside the
      target is as it was. */
  lemma ReplaceUploadsMirrors(d: Disk, source: string, target: string, dirListing: seq<string>, listing: seq<string>)
    requires |source| > 0 && Apart(source, target)
    requires IsListing(d.files, source, listing)
    requires forall i :: 0 <= i < |listing| ==> !Contains([Sep] + Relative(listing[i], source), source)
    ensures var r := ReplaceUploads(d, source, target, dirListing, listing);
      (forall f :: f in d.files && Under(f, source) ==>
         var g := target + [Sep] + Relative(f, source); g in r.files && r.files[g] == d.files[f])
      && (forall p :: p in r.files && Under(p, target) ==>
            exists f :: f in d.files && Under(f, source) && p == target + [Sep] + Relative(f, source))
      && (forall p :: !Under(p, target) ==>
            (p in r.files <==> p in d.files) && (p in d.files ==> r.files[p] == d.files[p]))
  {
    var cleared := if DirExists(d, target) then DeleteTree(d, target) else d;
    var m := MakeDir(cleared, target);
    assert forall p :: p in m.files <==> p in d.files && !Under(p, target);
    assert forall p :: p in m.files ==> m.files[p] == d.files[p];
    forall i | 0 <= i < |listing| ensures listing[i] in m.files {
      ApartTrees(target, source, listing[i]);
    }
    assert IsListing(m.files, source, listing);
    CopyTreeMirrors(m, source, target, dirListing, listing);
    forall f | f in d.files && Under(f, source) ensures f in m.files {
      ApartTrees(target, source, f);
    }
  }

  /** Folder target of disk r holds exactly the files of folder source
      of disk e: each at the same relative path with the same contents,
      and nothing else. */
  predicate Mirrors(r: Disk, target: string, e: Disk, source: string) {
    (forall f :: f in e.files && Under(f, source) ==>
       target + [Sep] + Relative(f, source) in r.files && r.files[target + [Sep] + Relative(f, source)] == e.files[f])
    && (forall p :: p in r.files && Under(p, target) ==>
          exists f :: f in e.files && Under(f, source) && p == target + [Sep] + Relative(f, source))
  }

  /** A mirror survives changes outside both folders. */
  lemma MirrorsAcross(r: Disk, r': Disk, target: string, e: Disk, e': Disk, source: string)
    requires Mirrors(r, target, e, source)
    requires forall p :: Under(p, target) ==> SameAt(r', r, p)
    requires forall f :: Under(f, source) ==> SameAt(e', e, f)
    ensures Mirrors(r', target, e', source)
  {
    forall f | f in e'.files && Under(f, source)
      ensures target + [Sep] + Relative(f, source) in r'.files
        && r'.files[target + [Sep] + Relative(f, source)] == e'.files[f]
    {
      assert SameAt(e', e, f);
      UnderJoin(target, Relative(f, source));
      assert SameAt(r', r, target + [Sep] + Relative(f, source));
    }
    forall p | p in r'.files && Under(p, target)
      ensures exists f :: f in e'.files && Under(f, source) && p == target + [Sep] + Relative(f, source)
    {
      assert SameAt(r', r, p);
      var f :| f in e.files && Under(f, source) && p == target + [Sep] + Relative(f, source);
      assert SameAt(e', e, f);
    }
  }

  /** The uploads folder extracted into a temporary folder lies inside
      it, and apart from every folder the temporary folder is apart from. */
  lemma ExtractedUploadsApart(tmp: string, target: string)
    requires tmp != "" && Apart(tmp, target)
    ensures var source := Combine(tmp, "uploads");
      source == tmp + [Sep] + "uploads" && Under(source, tmp) && Apart(source, target)
  {
    var source := Combine(tmp, "uploads");
    CombineUnder(tmp, "uploads");
    assert source[|source| - 1] == 's';
    ApartInside(tmp, target, source);
  }

  /** Deleting the temporary folder keeps a mirror inside a folder apart
      from it. */
  lemma MirrorsAfterCleanup(d: Disk, tmp: string, target: string, e: Disk, source: string, ok: bool)
    requires Apart(tmp, target) && Mirrors(d, target, e, source)
    ensures Mirrors(RemoveTemp(d, tmp, ok), target, e, source)
  {
    forall p | Under(p, target) ensures SameAt(RemoveTemp(d, tmp, ok), d, p) {
      ApartTrees(tmp, target, p);
    }
    forall f | Under(f, source) ensures SameAt(e, e, f) { }
    MirrorsAcross(d, RemoveTemp(d, tmp, ok), target, e, e, source);
  }

  /** Where an upload of a backup archive lands inside the extracted
      uploads folder, and its relative path there. */
  lemma ExtractedUploadKey(tmp: string, rel: string)
    requires tmp != "" && !EndsWithSep(tmp) && PlainRelative(rel)
    ensures var f := Combine(tmp, "uploads" + [Sep] + rel);
      f == Combine(tmp, "uploads") + [Sep] + rel && Under(f, Combine(tmp, "uploads"))
      && Relative(f, Combine(tmp, "uploads")) == rel
  {
    var n := "uploads" + [Sep] + rel;
    UploadsPath(tmp);
    assert !IsPathRooted(n) by { assert n[0] == 'u' && n[1] == 'p'; }
    assert Combine(tmp, n) == tmp + [Sep] + n;
    assert tmp + [Sep] + n == (tmp + [Sep] + "uploads") + [Sep] + rel;
    UnderJoin(Combine(tmp, "uploads"), rel);
  }

  /** Restoring a backup archive, when the live uploads folder mirrors
      the extracted one and the archive carries at least one upload:
      the live folder holds each upload at its relative path with its
      contents, and nothing else. */
  lemma LayoutMirrored(r: Disk, target: string, d1: Disk, tmp: string, db: Bytes, pairs: seq<(string, Bytes)>)
    requires tmp != "" && !EndsWithSep(tmp) && target != "" && !EndsWithSep(target)
    requires |pairs| > 0 && forall i :: 0 <= i < |pairs| ==> PlainRelative(pairs[i].0)
    requires forall i, j :: 0 <= i < j < |pairs| ==> pairs[i].0 != pairs[j].0
    requires ExtractAll(d1, tmp, BackupLayout(db, pairs)).Extracted?
    requires forall g :: g in d1.files ==> !Under(g, Combine(tmp, "uploads"))
    requires var e := ExtractAll(d1, tmp, BackupLayout(db, pairs)).disk;
      DirExists(e, Combine(tmp, "uploads")) ==> Mirrors(r, target, e, Combine(tmp, "uploads"))
    ensures forall i :: 0 <= i < |pairs| ==>
      Combine(target, pairs[i].0) in r.files && r.files[Combine(target, pairs[i].0)] == pairs[i].1
    ensures forall q :: q in r.files && Under(q, target) ==>
      exists i :: 0 <= i < |pairs| && q == Combine(target, pairs[i].0)
  {
    var e := ExtractAll(d1, tmp, BackupLayout(db, pairs)).disk;
    var source := Combine(tmp, "uploads");
    UploadsExtracted(d1, tmp, db, pairs);
    ExtractedUploadKey(tmp, pairs[0].0);
    assert DirExists(e, source);
    forall i | 0 <= i < |pairs|
      ensures Combine(target, pairs[i].0) in r.files && r.files[Combine(target, pairs[i].0)] == pairs[i].1
    {
      ExtractedUploadKey(tmp, pairs[i].0);
      CombineUnder(target, pairs[i].0);
      var f := Combine(tmp, "uploads" + [Sep] + pairs[i].0);
      assert f in e.files && Under(f, source);
    }
    forall q | q in r.files && Under(q, target)
      ensures exists i :: 0 <= i < |pairs| && q == Combine(target, pairs[i].0)
    {
      var f :| f in e.files && Under(f, source) && q == target + [Sep] + Relative(f, source);
      LayoutUploadsOnly(d1, tmp, db, pairs, f);
      var i :| 0 <= i < |pairs| && f == Combine(tmp, "uploads" + [Sep] + pairs[i].0);
      ExtractedUploadKey(tmp, pairs[i].0);
      CombineUnder(target, pairs[i].0);
    }
  }

  /** Every listed file lies inside source, and its relative path does
      not spell source again, so that it is copied to the same relative
      path under the target. */
  predicate CleanListing(source: string, listing: seq<string>) {
    forall i :: 0 <= i < |listing| ==> Under(listing[i], source) && !Contains([Sep] + Relative(listing[i], source), source)
  }

  /** Replacing the uploads changes nothing outside the target folder. */
  lemma ReplaceUploadsFrame(d: Disk, source: string, target: string, dirListing: seq<string>, listing: seq<string>, p: string)
    requires |source| > 0 && CleanListing(source, listing) && !Under(p, target)
    ensures SameAt(ReplaceUploads(d, source, target, dirListing, listing), d, p)
  {
    var cleared := if DirExists(d, target) then DeleteTree(d, target) else d;
    var m := MakeDir(cleared, target);
    forall i | 0 <= i < |listing| ensures Dest(listing[i], source, target) != p {
      DestMirrors(listing[i], source, target);
      var g := target + [Sep] + Relative(listing[i], source);
      assert g[..|target| + 1] == target + [Sep];
      assert Under(g, target);
    }
    CopyFilesFrame(m.files, listing, source, target, p);
  }

  /** How the uploads replacement of a restore ends. Every System.IO call
      in it may throw, and whatever was done before the throw stays done. */
  datatype UploadsOutcome =
      // every call returned
    | Replaced
      // Directory.Delete on the live folder threw after removing the files
      // in removed; when the live folder did not exist, Directory.Delete is
      // not called and this is the CreateDirectory that follows throwing
    | DeleteThrew(removed: set<string>)
      // the live folder was deleted and created again, the subdirectories
      // were made, and File.Copy threw on the listed file at index copied
    | CopyThrew(copied: nat)

  /** How many listed files were copied before File.Copy threw at index k. */
  function CopiedCount(listing: seq<string>, k: nat): (n: nat)
    ensures n <= |listing| && (k <= |listing| ==> n == k)
  {
    if k < |listing| then k else |listing|
  }

  /** The file system after the uploads replacement ended as outcome says. */
  function UploadsAfter(d: Disk, source: string, target: string, dirListing: seq<string>, listing: seq<string>,
                        outcome: UploadsOutcome): Disk
    requires |source| > 0
  {
    match outcome
    case Replaced => ReplaceUploads(d, source, target, dirListing, listing)
    case DeleteThrew(removed) => if DirExists(d, target) then DeleteTreePart(d, target, removed) else d
    case CopyThrew(k) => ReplaceUploads(d, source, target, dirListing, listing[..CopiedCount(listing, k)])
  }

  /** However the replacement ends, nothing outside the target folder
      changes. */
  lemma UploadsAfterFrame(d: Disk, source: string, target: string, dirListing: seq<string>, listing: seq<string>,
                          outcome: UploadsOutcome, p: string)
    requires |source| > 0 && CleanListing(source, listing) && !Under(p, target)
    ensures SameAt(UploadsAfter(d, source, target, dirListing, listing, outcome), d, p)
  {
    match outcome
    case Replaced =>
      ReplaceUploadsFrame(d, source, target, dirListing, listing, p);
    case DeleteThrew(_) =>
    case CopyThrew(k) =>
      var pre := listing[..CopiedCount(listing, k)];
      assert forall i :: 0 <= i < |pre| ==> pre[i] == listing[i];
      ReplaceUploadsFrame(d, source, target, dirListing, pre, p);
  }

  /** A copy that throws part-way leaves the live folder holding only the
      files copied so far: the first k listed files are there at their
      relative paths with their contents, and every file in the folder is
      one of them, so whatever it held before is gone. */
  lemma UploadsCopyThrew(d: Disk, source: string, target: string, dirListing: seq<string>, listing: seq<string>, k: nat)
    requires |source| > 0 && Apart(source, target) && k <= |listing|
    requires IsListing(d.files, source, listing) && CleanListing(source, listing)
    ensures var r := UploadsAfter(d, source, target, dirListing, listing, CopyThrew(k));
      (forall i :: 0 <= i < k ==>
         var g := target + [Sep] + Relative(listing[i], source); g in r.files && r.files[g] == d.files[listing[i]])
      && (forall p :: p in r.files && Under(p, target) ==>
            exists i :: 0 <= i < k && p == target + [Sep] + Relative(listing[i], source))
  {
    var pre := listing[..k];
    assert forall i :: 0 <= i < k ==> pre[i] == listing[i];
    PrefixCopied(d, source, target, dirListing, pre);
  }

  /** Replacing the uploads with distinct clean files of source copies
      each of them, and nothing else, into target. */
  lemma PrefixCopied(d: Disk, source: string, target: string, dirListing: seq<string>, pre: seq<string>)
    requires |source| > 0 && Apart(source, target) && CleanListing(source, pre)
    requires forall i :: 0 <= i < |pre| ==> pre[i] in d.files
    requires forall i, j :: 0 <= i < j < |pre| ==> pre[i] != pre[j]
    ensures var r := ReplaceUploads(d, source, target, dirListing, pre);
      (forall i :: 0 <= i < |pre| ==>
         var g := target + [Sep] + Relative(pre[i], source); g in r.files && r.files[g] == d.files[pre[i]])
      && (forall p :: p in r.files && Under(p, target) ==>
            exists i :: 0 <= i < |pre| && p == target + [Sep] + Relative(pre[i], source))
  {
    var cleared := if DirExists(d, target) then DeleteTree(d, target) else d;
    var m := MakeDir(cleared, target);
    assert forall p :: p in m.files <==> p in d.files && !Under(p, target);
    assert forall p :: p in m.files ==> m.files[p] == d.files[p];
    forall i | 0 <= i < |pre| ensures pre[i] in m.files {
      ApartTrees(target, source, pre[i]);
    }
    DestsApart(source, target, pre);
    CopyFilesEffect(m.files, pre, source, target);
  }

  /** Distinct clean files inside source are copied to distinct places
      inside target, none of them a source file. */
  lemma DestsApart(source: string, target: string, pre: seq<string>)
    requires |source| > 0 && Apart(source, target) && CleanListing(source, pre)
    requires forall i, j :: 0 <= i < j < |pre| ==> pre[i] != pre[j]
    ensures forall i :: 0 <= i < |pre| ==>
      Dest(pre[i], source, target) == target + [Sep] + Relative(pre[i], source) && Under(Dest(pre[i], source, target), target)
    ensures forall i, j :: 0 <= i < |pre| && 0 <= j < |pre| ==> Dest(pre[i], source, target) != pre[j]
    ensures forall i, j :: 0 <= i < j < |pre| ==> Dest(pre[i], source, target) != Dest(pre[j], source, target)
  {
    forall i | 0 <= i < |pre|
      ensures Dest(pre[i], source, target) == target + [Sep] + Relative(pre[i], source)
      ensures Under(Dest(pre[i], source, target), target)
    {
      DestMirrors(pre[i], source, target);
      var g := target + [Sep] + Relative(pre[i], source);
      assert g[..|target| + 1] == target + [Sep];
    }
    forall i, j | 0 <= i < |pre| && 0 <= j < |pre|
      ensures Dest(pre[i], source, target) != pre[j]
    {
      ApartTrees(source, target, Dest(pre[i], source, target));
    }
    forall i, j | 0 <= i < j < |pre|
      ensures Dest(pre[i], source, target) != Dest(pre[j], source, target)
    {
      var ri := Relative(pre[i], source);
      var rj := Relative(pre[j], source);
      UnderRelative(pre[i], source);
      UnderRelative(pre[j], source);
      assert ri == (target + [Sep] + ri)[|target| + 1..];
      assert rj == (target + [Sep] + rj)[|target| + 1..];
    }
  }

  /** One step of the extraction, from entry i on. */
  lemma ExtractAllStep(d: Disk, dir: string, a: Archive, i: nat)
    requires i < |a|
    ensures ExtractAll(d, dir, a[i..]) ==
      if Refused(a[i].name) then ExtractFailed(d) else ExtractAll(ApplyEntry(d, dir, a[i]), dir, a[i + 1..])
  {
    assert a[i..][0] == a[i];
    assert a[i..][1..] == a[i + 1..];
  }

  /** ZipFile.ExtractToDirectory(zip, dir, overwrite: true): entry by
      entry, stopping with an exception at the first refused name. */
  method ExtractToDirectory(fs: FileSystem, dir: string, a: Archive) returns (ok: bool)
    modifies fs
    ensures ExtractAll(old(fs.View()), dir, a) == (if ok then Extracted(fs.View()) else ExtractFailed(fs.View()))
  {
    var i := 0;
    while i < |a|
      invariant 0 <= i <= |a|
      invariant ExtractAll(old(fs.View()), dir, a) == ExtractAll(fs.View(), dir, a[i..])
    {
      var e := a[i];
      ExtractAllStep(fs.View(), dir, a, i);
      if Refused(e.name) {
        return false;
      }
      if IsDirectoryEntry(e.name) {
        fs.CreateDirectory(Combine(dir, ToBackslash(e.name[..|e.name| - 1])));
      } else {
        fs.WriteAllBytes(EntryPath(dir, e.name), e.data);
      }
      i := i + 1;
    }
    ok := true;
  }

  /** The uploads replacement as the restores run it; ok is false when
      one of its System.IO calls threw. */
  method ReplaceUploadsFolder(fs: FileSystem, source: string, target: string, dirListing: seq<string>, listing: seq<string>,
                              outcome: UploadsOutcome) returns (ok: bool)
    requires |source| > 0
    modifies fs
    ensures ok == outcome.Replaced?
    ensures fs.View() == UploadsAfter(old(fs.View()), source, target, dirListing, listing, outcome)
  {
    if DirExists(fs.View(), target) {
      if outcome.DeleteThrew? {
        fs.DeleteDirectoryPart(target, outcome.removed);
        return false;
      }
      fs.DeleteDirectory(target);
    } else if outcome.DeleteThrew? {
      return false;
    }
    fs.CreateDirectory(target);
    if outcome.CopyThrew? {
      fs.CopyDirectory(source, target, dirListing, listing[..CopiedCount(listing, outcome.copied)]);
      return false;
    }
    fs.CopyDirectory(source, target, dirListing, listing);
    ok := true;
  }

  /** database.db is at the root of the extracted folder exactly when an
      entry wrote it there, and then it holds that entry's data. */
  lemma DbKeyInTemp(d1: Disk, tmp: string, a: Archive)
    requires tmp != "" && !EndsWithSep(tmp) && ExtractAll(d1, tmp, a).Extracted?
    requires forall f :: f in d1.files && f != Combine(tmp, "backup.zip") ==> !Under(f, tmp)
    ensures var d2 := ExtractAll(d1, tmp, a).disk;
      var key := Combine(tmp, DbEntryName);
      (key in d2.files <==> LastWrite(a, tmp, key).Some?)
      && (key in d2.files ==> d2.files[key] == LastWrite(a, tmp, key).value)
  {
    var key := Combine(tmp, DbEntryName);
    DbKeyNotZip(tmp);
    assert key !in d1.files;
    ExtractedContents(d1, tmp, a, key);
  }

  /** tmp\database.db and tmp\backup.zip lie in tmp and differ. */
  lemma DbKeyNotZip(tmp: string)
    requires tmp != "" && !EndsWithSep(tmp)
    ensures Under(Combine(tmp, DbEntryName), tmp) && Under(Combine(tmp, "backup.zip"), tmp)
    ensures Combine(tmp, DbEntryName) != Combine(tmp, "backup.zip")
  {
    var n := DbEntryName;
    var z := "backup.zip";
    assert n[0] == 'd' && n[1] == 'a' && z[0] == 'b' && z[1] == 'a';
    CombineUnder(tmp, n);
    CombineUnder(tmp, z);
    assert Combine(tmp, n)[|tmp| + 1] == n[0];
    assert Combine(tmp, z)[|tmp| + 1] == z[0];
  }

  /** The import folder is a non-empty path. */
  lemma ImportFolderNamed(tempDir: string, guid: string)
    ensures ImportFolder(tempDir, guid) != ""
  {
    var n := "photoapp_import_" + guid;
    assert n[0] == 'p';
  }

  /** Pairs taken from a listing of a folder, restored at their relative
      paths inside the same folder, put each listed file back at its own
      path with the pair's contents, and nothing else. */
  lemma ListedBack(r: Disk, folder: string, listing: seq<string>, p: seq<(string, Bytes)>)
    requires folder != "" && !EndsWithSep(folder) && |p| == |listing|
    requires forall i :: 0 <= i < |p| ==> PlainRelative(p[i].0) && Under(listing[i], folder) && p[i].0 == Relative(listing[i], folder)
    requires forall i :: 0 <= i < |p| ==> Combine(folder, p[i].0) in r.files && r.files[Combine(folder, p[i].0)] == p[i].1
    requires forall q :: q in r.files && Under(q, folder) ==> exists i :: 0 <= i < |p| && q == Combine(folder, p[i].0)
    ensures forall i :: 0 <= i < |listing| ==> listing[i] in r.files && r.files[listing[i]] == p[i].1
    ensures forall q :: q in r.files && Under(q, folder) ==> q in listing
  {
    forall i | 0 <= i < |listing| ensures Combine(folder, p[i].0) == listing[i] {
      UnderRelative(listing[i], folder);
      CombineUnder(folder, p[i].0);
    }
  }

  /** A restore saves its upload as backup.zip in a new temporary folder:
      afterwards no file lies inside that folder's uploads subfolder. */
  lemma SavedOutsideUploads(d: Disk, tmp: string, bytes: Bytes)
    requires tmp != "" && !EndsWithSep(tmp)
    requires forall f :: f in d.files ==> !Under(f, tmp)
    ensures forall g :: g in WriteFile(MakeDir(d, tmp), Combine(tmp, "backup.zip"), bytes).files ==> !Under(g, Combine(tmp, "uploads"))
  {
    var source := Combine(tmp, "uploads");
    CombineUnder(tmp, "backup.zip");
    UploadsPath(tmp);
    SiblingsApart(tmp, "backup.zip", "uploads");
    assert Under(source, tmp);
    forall g | g in d.files ensures !Under(g, source) {
      if Under(g, source) { UnderNested(g, source, tmp); }
    }
  }
}
