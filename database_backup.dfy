/** DatabaseBackupController (api/admin/db): where its constructor puts
    the database, GetBackup, which zips a snapshot of the database with
    the uploads, and RestoreBackup, which checks an uploaded backup and
    applies it to the running database. Both actions run under one
    operation gate shared by every controller instance. The SQLite
    engine's answers (whether BackupDatabase succeeds, what
    integrity_check says) and the outcome of the other fallible calls are
    inputs; the database is the file at the configured path. */
module DatabaseBackup {
  import opened Text
  import opened Paths
  import opened Hosting
  import opened DataSource
  import opened FileStore
  import opened Zip
  import opened Transfer

  /** 200 MiB, the largest upload RestoreBackup takes. */
  const MaxUploadBytes: int := 200 * 1024 * 1024

  /** The static _opLock, a SemaphoreSlim(1, 1): count is its CurrentCount,
      1 when free and 0 while an action holds it. */
  class OpGate {
    var count: nat

    constructor ()
      ensures count == 1
    {
      count := 1;
    }

    /** WaitAsync: takes the gate when it is free. When it is held the
        caller would wait; entered is false then and nothing changes. */
    method Wait() returns (entered: bool)
      modifies this
      ensures entered <==> old(count) > 0
      ensures count == if entered then old(count) - 1 else old(count)
    {
      entered := count > 0;
      if entered {
        count := count - 1;
      }
    }

    /** Release gives one count back. The semaphore would throw when
        released past its maximum; the model lets the count grow instead,
        so that a second release shows. */
    method Release()
      modifies this
      ensures count == old(count) + 1
    {
      count := count + 1;
    }
  }

  /** What the constructor fixes: the database file, the connection
      string used to open it, and the folder for pre-restore copies. */
  datatype Settings = Settings(dbPath: string, connString: string, backupFolder: string)

  /** The end of an action: its response, the file system, the gate's
      count, and the files the response's completion callback deletes. */
  datatype Run = Run(response: Response, disk: Disk, count: nat, afterResponse: seq<string>)

  // ------------------------------------------------------------ GetBackup

  /** How BackupDatabase into the snapshot went: it copied the database,
      or it threw, possibly after the destination connection had already
      created an empty file. */
  datatype Engine = Copied | EngineFailed(leftEmptyFile: bool)

  /** The inputs of one GetBackup: the time stamps of the snapshot name and
      of the ZIP name (the clock is read twice) and the GUID,
      the engine's answer, whether the fallback File.Copy succeeds, what
      Directory.GetFiles lists in the uploads folder, which of those files
      cannot be opened, and the message of the exception that ends it. */
  datatype BackupEnv = BackupEnv(
    snapshotStamp: string, zipStamp: string, guid: string,
    engine: Engine, copyOk: bool,
    listing: seq<string>, unreadable: set<string>,
    cause: string)

  /** Making the snapshot: BackupDatabase, and File.Copy with overwrite
      when that throws. ok tells whether one of them produced it. */
  function TakeSnapshot(d: Disk, live: string, tmp: string, engine: Engine, copyOk: bool): (r: (Disk, bool))
    requires live in d.files
    ensures r.1 <==> engine.Copied? || copyOk
    ensures r.1 ==> tmp in r.0.files
    ensures r.1 && tmp != live ==> r.0.files[tmp] == d.files[live]
    ensures forall p :: p != tmp ==> SameAt(r.0, d, p)
    ensures r.0.dirs == d.dirs
  {
    match engine
    case Copied => (WriteFile(d, tmp, d.files[live]), true)
    case EngineFailed(left) =>
      var d1 := if left then WriteFile(d, tmp, []) else d;
      if copyOk then (CopyFile(d1, live, tmp), true) else (d1, false)
  }

  /** The uploads of the archive: each listed file's relative path and
      contents in listing order, or None when one of them cannot be
      read, which throws out of the action. */
  function UploadPairs(files: map<string, Bytes>, folder: string, listing: seq<string>, unreadable: set<string>)
    : (r: Option<seq<(string, Bytes)>>)
    ensures r.Some? <==> forall i :: 0 <= i < |listing| ==> listing[i] in files && listing[i] !in unreadable
    ensures r.Some? ==> (|r.value| == |listing|
      && forall i :: 0 <= i < |listing| ==> r.value[i] == (UploadRel(folder, listing[i]), files[listing[i]]))
    decreases |listing|
  {
    if listing == [] then Some([])
    else
      var init := listing[..|listing| - 1];
      var f := listing[|listing| - 1];
      assert forall i :: 0 <= i < |init| ==> init[i] == listing[i];
      match UploadPairs(files, folder, init, unreadable)
      case None => None
      case Some(p) =>
        if f in files && f !in unreadable then Some(p + [(UploadRel(folder, f), files[f])]) else None
  }

  /** GetBackup: a missing database is 404; otherwise the snapshot is
      zipped as database.db followed by the uploads, its deletion is left
      to the completion callback, and the gate is given back on every
      path. */
  function GetBackupRun(s: Settings, h: Host, d: Disk, count: nat, env: BackupEnv): Run {
    if count == 0 then Run(Blocked, d, count, [])
    else if s.dbPath !in d.files then Run(NotFound("DB file not found."), d, count, [])
    else
      var tmp := SnapshotPath(h.tempDir, env.snapshotStamp, env.guid);
      var snap := TakeSnapshot(d, s.dbPath, tmp, env.engine, env.copyOk);
      var d1 := snap.0;
      if !snap.1 then Run(ServerError("Failed to prepare DB for backup: " + env.cause), d1, count, [])
      else
        var uploads := BackupUploads(h);
        var pairs := if DirExists(d1, uploads) then UploadPairs(d1.files, uploads, env.listing, env.unreadable) else Some([]);
        match pairs
        case None => Run(ServerError("Failed to create backup: " + env.cause), d1, count, [])
        case Some(p) => Run(ZipDownload(BackupLayout(d1.files[tmp], p), BackupZipName(env.zipStamp)), d1, count, [tmp])
  }

  /** Past the gate, GetBackup does the same whatever the count. */
  lemma GetBackupCount(s: Settings, h: Host, d: Disk, count: nat, env: BackupEnv)
    requires count > 0
    ensures GetBackupRun(s, h, d, count, env) == GetBackupRun(s, h, d, 1, env).(count := count)
  { }

  /** A held gate makes GetBackup wait, changing nothing; otherwise the
      gate ends as it started, taken and given back exactly once. */
  lemma GetBackupGate(s: Settings, h: Host, d: Disk, count: nat, env: BackupEnv)
    ensures var r := GetBackupRun(s, h, d, count, env);
      (count == 0 ==> r.response == Blocked && r.disk == d)
      && r.count == count
  {
  }

  /** The archive GetBackup serves: it is produced exactly when the
      database exists, a snapshot could be made and every listed upload
      could be read; its first entry is database.db holding the database
      as it was, and entry i + 1 is listed upload i under
      "uploads/<relative path>" with that file's contents. */
  lemma GetBackupArchive(s: Settings, h: Host, d: Disk, env: BackupEnv)
    requires SnapshotPath(h.tempDir, env.snapshotStamp, env.guid) != s.dbPath
    requires SnapshotPath(h.tempDir, env.snapshotStamp, env.guid) !in env.listing
    ensures var r := GetBackupRun(s, h, d, 1, env);
      var uploads := BackupUploads(h);
      var tmp := SnapshotPath(h.tempDir, env.snapshotStamp, env.guid);
      r.response.ZipDownload? <==>
        (s.dbPath in d.files && (env.engine.Copied? || env.copyOk)
         && (DirExists(r.disk, uploads) ==>
               forall i :: 0 <= i < |env.listing| ==> env.listing[i] in d.files && env.listing[i] !in env.unreadable))
    ensures var r := GetBackupRun(s, h, d, 1, env);
      var uploads := BackupUploads(h);
      r.response.ZipDownload? ==>
        var a := r.response.archive;
        a[0] == Entry(DbEntryName, d.files[s.dbPath])
        && r.response.fileName == BackupZipName(env.zipStamp)
        && (DirExists(r.disk, uploads) ==>
              |a| == 1 + |env.listing|
              && forall i :: 0 <= i < |env.listing| ==>
                   a[i + 1] == Entry(UploadEntryName(UploadRel(uploads, env.listing[i])), d.files[env.listing[i]]))
        && (!DirExists(r.disk, uploads) ==> |a| == 1)
  {
    var tmp := SnapshotPath(h.tempDir, env.snapshotStamp, env.guid);
    if s.dbPath in d.files {
      var d1 := TakeSnapshot(d, s.dbPath, tmp, env.engine, env.copyOk).0;
      forall i | 0 <= i < |env.listing| ensures SameAt(d1, d, env.listing[i]) {
      }
    }
  }

  /** Deletion of the snapshot is scheduled only when the archive is
      served, and then the callback removes it; the 500 returned after the
      snapshot was made, when reading the uploads fails, leaves it on
      disk. */
  lemma GetBackupSnapshotCleanup(s: Settings, h: Host, d: Disk, env: BackupEnv)
    requires SnapshotPath(h.tempDir, env.snapshotStamp, env.guid) != s.dbPath
    ensures var r := GetBackupRun(s, h, d, 1, env);
      var tmp := SnapshotPath(h.tempDir, env.snapshotStamp, env.guid);
      (r.afterResponse != [] <==> r.response.ZipDownload?)
      && (r.response.ZipDownload? ==> r.afterResponse == [tmp] && tmp !in DeleteAfterResponse(r.disk, r.afterResponse).files)
      && (r.response == ServerError("Failed to create backup: " + env.cause) ==> tmp in r.disk.files)
  {
    var r := GetBackupRun(s, h, d, 1, env);
    if r.response.ZipDownload? {
      assert r.afterResponse[0] == SnapshotPath(h.tempDir, env.snapshotStamp, env.guid);
    }
    var prepare := "Failed to prepare DB for backup: " + env.cause;
    var create := "Failed to create backup: " + env.cause;
    assert prepare[10] != create[10];
  }

  // --------------------------------------------------------- RestoreBackup

  /** What PRAGMA integrity_check answered, or that the extracted file
      could not be opened or checked. */
  datatype Integrity = Status(text: string) | CannotOpen

  /** The inputs of one RestoreBackup: the GUID and time stamp in the
      names, whether creating the temporary folder and saving the upload
      succeed, the integrity answer, whether the best-effort pre-restore
      copy and the application of the upload succeed, how the best-effort
      uploads replacement ends, the listings of the extracted uploads folder,
      whether deleting the temporary folder succeeds, and the message of
      a failure. */
  datatype RestoreEnv = RestoreEnv(
    guid: string, stamp: string,
    createOk: bool, saveOk: bool, integrity: Integrity,
    fallbackOk: bool, applyOk: bool, uploads: UploadsOutcome,
    dirListing: seq<string>, listing: seq<string>,
    cleanupOk: bool, cause: string)

  const NoFileMessage: string := "No file uploaded."
  const TooLargeMessage: string := "Uploaded file too large."
  const NotZipMessage: string := "Uploaded file is not a valid ZIP or extraction failed."
  const NoDbMessage: string := "ZIP does not contain database.db at the root."
  const CannotCheckMessage: string := "Uploaded DB failed integrity check or could not be opened."

  /** _backupFolder\pre-restore-{stamp}.sqlite. */
  function FallbackPath(s: Settings, env: RestoreEnv): string {
    Combine(s.backupFolder, "pre-restore-" + env.stamp + ".sqlite")
  }

  /** Path.Combine(WebRootPath ?? (ContentRootPath ?? current
      directory)\wwwroot, "uploads"), the folder a restore replaces. */
  function RestoreUploads(h: Host): string {
    Combine(h.webRoot.GetOr(Combine(RootOrCwd(h), "wwwroot")), "uploads")
  }

  /** Step 5, best effort: a copy of the running database next to the
      backups, made only when the database file exists. */
  function SaveFallback(d: Disk, s: Settings, env: RestoreEnv): (r: Disk)
    ensures forall p :: p != FallbackPath(s, env) ==> SameAt(r, d, p)
    ensures s.dbPath in d.files && env.fallbackOk ==>
      FallbackPath(s, env) in r.files && r.files[FallbackPath(s, env)] == d.files[s.dbPath]
  {
    if s.dbPath in d.files && env.fallbackOk then WriteFile(d, FallbackPath(s, env), d.files[s.dbPath]) else d
  }

  /** Step 9, best effort: the uploads folder is replaced when the
      archive brought one; a replacement that throws part-way is logged
      and leaves what it had done so far. */
  function UploadsStep(d: Disk, tmp: string, h: Host, env: RestoreEnv): Disk {
    var source := Combine(tmp, "uploads");
    if DirExists(d, source) then UploadsAfter(d, source, RestoreUploads(h), env.dirListing, env.listing, env.uploads)
    else d
  }

  /** Steps 5 to 10, once every check has passed: the pre-restore copy,
      BackupDatabase from the extracted file into the running database
      (500 when it throws), and the uploads. */
  function ApplySteps(s: Settings, h: Host, d: Disk, tmp: string, env: RestoreEnv): Step
    requires Combine(tmp, DbEntryName) in d.files
  {
    var d1 := SaveFallback(d, s, env);
    if !env.applyOk then Step(ServerError("Failed to apply uploaded DB into running DB: " + env.cause), d1)
    else
      var d2 := WriteFile(d1, s.dbPath, d1.files[Combine(tmp, DbEntryName)]);
      Step(RedirectTo("Index", "Photos"), UploadsStep(d2, tmp, h, env))
  }

  /** Steps 3 and 4: database.db must be at the root of the extracted
      archive and integrity_check must say "ok" in any case. */
  function CheckSteps(s: Settings, h: Host, d: Disk, tmp: string, env: RestoreEnv): Step {
    if Combine(tmp, DbEntryName) !in d.files then Step(BadRequest(NoDbMessage), d)
    else
      match env.integrity
      case CannotOpen => Step(BadRequest(CannotCheckMessage), d)
      case Status(t) =>
        if !EqualsIgnoreCase(t, "ok") then Step(BadRequest("Uploaded DB failed integrity_check: " + t), d)
        else ApplySteps(s, h, d, tmp, env)
  }

  /** The try block: save the upload as backup.zip (an exception here is
      the catch-all 500), extract it (400 when that fails), then check and
      apply. */
  function RestoreSteps(s: Settings, h: Host, d: Disk, tmp: string, u: Upload, env: RestoreEnv): Step {
    if !env.saveOk then Step(ServerError("Restore failed: " + env.cause), d)
    else
      var d1 := WriteFile(d, Combine(tmp, "backup.zip"), u.bytes);
      match u.archive
      case None => Step(BadRequest(NotZipMessage), d1)
      case Some(a) =>
        match ExtractAll(d1, tmp, a)
        case ExtractFailed(d2) => Step(BadRequest(NotZipMessage), d2)
        case Extracted(d2) => CheckSteps(s, h, d2, tmp, env)
  }

  /** An upload RestoreBackup accepts for processing: present, not empty
      and at most 200 MiB. */
  predicate Acceptable(upload: Option<Upload>) {
    upload.Some? && 0 < |upload.value.bytes| <= MaxUploadBytes
  }

  /** RestoreBackup: the size checks come before the gate; the temporary
      folder is created after taking the gate but outside the try block,
      so a failure there escapes with the gate still taken; otherwise the
      finally block deletes the folder and gives the gate back. */
  function RestoreRun(s: Settings, h: Host, d: Disk, count: nat, upload: Option<Upload>, env: RestoreEnv): Run {
    if upload.None? || |upload.value.bytes| == 0 then Run(BadRequest(NoFileMessage), d, count, [])
    else if |upload.value.bytes| > MaxUploadBytes then Run(BadRequest(TooLargeMessage), d, count, [])
    else if count == 0 then Run(Blocked, d, count, [])
    else
      var tmp := ImportFolder(h.tempDir, env.guid);
      if !env.createOk then Run(Unhandled, d, count - 1, [])
      else
        var st := RestoreSteps(s, h, MakeDir(d, tmp), tmp, upload.value, env);
        Run(st.response, RemoveTemp(st.disk, tmp, env.cleanupOk), count, [])
  }

  /** Empty and oversize uploads are refused with 400 before the gate is
      touched, whether or not it is held, and change nothing. */
  lemma RestoreChecksSizeFirst(s: Settings, h: Host, d: Disk, count: nat, upload: Option<Upload>, env: RestoreEnv)
    requires !Acceptable(upload)
    ensures var r := RestoreRun(s, h, d, count, upload, env);
      r.response.BadRequest? && r.disk == d && r.count == count
      && (r.response.message == NoFileMessage <==> upload.None? || |upload.value.bytes| == 0)
  {
  }

  /** For an acceptable upload: a held gate makes the action wait; a
      failure to create the temporary folder escapes with the gate still
      taken; on every other path the gate is given back exactly once. */
  lemma RestoreGate(s: Settings, h: Host, d: Disk, count: nat, upload: Option<Upload>, env: RestoreEnv)
    requires Acceptable(upload)
    ensures var r := RestoreRun(s, h, d, count, upload, env);
      (count == 0 ==> r.response == Blocked && r.disk == d && r.count == 0)
      && (count > 0 && !env.createOk ==> r.response == Unhandled && r.disk == d && r.count == count - 1)
      && (count > 0 && env.createOk ==> r.count == count)
  {
  }

  /** The pre-restore copy, the uploads replacement and the deletion of
      the temporary folder are best effort: whether they succeed never
      changes the response. */
  lemma BestEffortKeepsResponse(s: Settings, h: Host, d: Disk, count: nat, upload: Option<Upload>, env: RestoreEnv,
                                fallbackOk: bool, uploads: UploadsOutcome, cleanupOk: bool)
    ensures RestoreRun(s, h, d, count, upload, env.(fallbackOk := fallbackOk, uploads := uploads, cleanupOk := cleanupOk)).response
         == RestoreRun(s, h, d, count, upload, env).response
  {
  }

  /** Whatever happens, no file is left inside the temporary folder once
      an action that created it ends and its deletion succeeds. */
  lemma RestoreRemovesTemp(s: Settings, h: Host, d: Disk, count: nat, upload: Option<Upload>, env: RestoreEnv)
    requires Acceptable(upload) && count > 0 && env.createOk && env.cleanupOk
    ensures var r := RestoreRun(s, h, d, count, upload, env);
      forall f :: f in r.disk.files ==> !Under(f, ImportFolder(h.tempDir, env.guid))
  {
  }

  /** Paths that do not overlap: the running database lies outside the
      temporary folder and outside the uploads folder, and the
      pre-restore copy is neither the database nor inside those folders. */
  predicate Separate(s: Settings, h: Host, env: RestoreEnv) {
    var tmp := ImportFolder(h.tempDir, env.guid);
    !EndsWithSep(tmp)
    && !Under(s.dbPath, tmp) && !Under(s.dbPath, RestoreUploads(h))
    && FallbackPath(s, env) != s.dbPath && !Under(FallbackPath(s, env), tmp)
    && !Under(FallbackPath(s, env), RestoreUploads(h))
  }

  /** The temporary folder is new: nothing lies inside it yet. */
  predicate FreshFolder(d: Disk, tmp: string) {
    forall f :: f in d.files ==> !Under(f, tmp)
  }

  /** The response is the redirect to the photo list exactly when the
      upload is acceptable, the gate free, the folder created and the
      upload saved, the archive extracts completely, some entry wrote
      database.db at its root, integrity_check said "ok" in any case, and
      BackupDatabase into the running database succeeded. */
  lemma RestoreSucceedsIff(s: Settings, h: Host, d: Disk, count: nat, upload: Option<Upload>, env: RestoreEnv)
    requires Separate(s, h, env) && FreshFolder(d, ImportFolder(h.tempDir, env.guid))
    ensures var r := RestoreRun(s, h, d, count, upload, env);
      var tmp := ImportFolder(h.tempDir, env.guid);
      r.response.RedirectTo? <==>
        (Acceptable(upload) && count > 0 && env.createOk && env.saveOk
         && upload.value.archive.Some? && NoneRefused(upload.value.archive.value)
         && LastWrite(upload.value.archive.value, tmp, Combine(tmp, DbEntryName)).Some?
         && env.integrity.Status? && EqualsIgnoreCase(env.integrity.text, "ok")
         && env.applyOk)
  {
    var tmp := ImportFolder(h.tempDir, env.guid);
    if Acceptable(upload) && count > 0 && env.createOk && env.saveOk && upload.value.archive.Some? {
      var a := upload.value.archive.value;
      var d1 := WriteFile(MakeDir(d, tmp), Combine(tmp, "backup.zip"), upload.value.bytes);
      ExtractCompletes(d1, tmp, a);
      if NoneRefused(a) {
        DbKeyInTemp(d1, tmp, a);
      }
    }
  }

  /** The steps inside the try block touch the running database only on
      the path that ends in the redirect. */
  lemma StepsKeepLiveDb(s: Settings, h: Host, d0: Disk, tmp: string, u: Upload, env: RestoreEnv)
    requires Separate(s, h, env) && tmp == ImportFolder(h.tempDir, env.guid)
    ensures var st := RestoreSteps(s, h, d0, tmp, u, env);
      !st.response.RedirectTo? ==> SameAt(st.disk, d0, s.dbPath)
  {
    if env.saveOk {
      var d1 := WriteFile(d0, Combine(tmp, "backup.zip"), u.bytes);
      SaveKeepsLiveDb(s, h, d0, tmp, u, env);
      if u.archive.Some? {
        ExtractKeepsLiveDb(s, h, d1, tmp, u.archive.value, env);
        CheckKeepsLiveDb(s, h, ExtractAll(d1, tmp, u.archive.value).disk, tmp, env);
      }
    }
  }

  /** Saving backup.zip into the temporary folder leaves the database. */
  lemma SaveKeepsLiveDb(s: Settings, h: Host, d0: Disk, tmp: string, u: Upload, env: RestoreEnv)
    requires Separate(s, h, env) && tmp == ImportFolder(h.tempDir, env.guid)
    ensures SameAt(WriteFile(d0, Combine(tmp, "backup.zip"), u.bytes), d0, s.dbPath)
  {
    ImportFolderNamed(h.tempDir, env.guid);
    DbKeyNotZip(tmp);
  }

  /** Extracting into the temporary folder leaves the database. */
  lemma ExtractKeepsLiveDb(s: Settings, h: Host, d1: Disk, tmp: string, a: Archive, env: RestoreEnv)
    requires Separate(s, h, env) && tmp == ImportFolder(h.tempDir, env.guid)
    ensures SameAt(ExtractAll(d1, tmp, a).disk, d1, s.dbPath)
  {
    ImportFolderNamed(h.tempDir, env.guid);
    ExtractStaysInside(d1, tmp, a);
  }

  /** The checks and a failed apply leave the database. */
  lemma CheckKeepsLiveDb(s: Settings, h: Host, d2: Disk, tmp: string, env: RestoreEnv)
    requires Separate(s, h, env)
    ensures var st := CheckSteps(s, h, d2, tmp, env);
      !st.response.RedirectTo? ==> SameAt(st.disk, d2, s.dbPath)
  {
  }

  /** The running database is exactly as it was after every restore that
      does not end in the redirect: a refused upload, a failed save, a
      failed extraction, a missing database.db, a failed integrity check
      and a failed apply all leave it alone. */
  lemma LiveDbUntouchedUnlessRestored(s: Settings, h: Host, d: Disk, count: nat, upload: Option<Upload>, env: RestoreEnv)
    requires Separate(s, h, env)
    ensures var r := RestoreRun(s, h, d, count, upload, env);
      !r.response.RedirectTo? ==> SameAt(r.disk, d, s.dbPath)
  {
    var tmp := ImportFolder(h.tempDir, env.guid);
    if Acceptable(upload) && count > 0 && env.createOk {
      StepsKeepLiveDb(s, h, MakeDir(d, tmp), tmp, upload.value, env);
    }
  }

  /** The disks a restore that passes its checks goes through. */
  lemma ExtractedDb(s: Settings, h: Host, d: Disk, upload: Option<Upload>, env: RestoreEnv)
    requires Separate(s, h, env) && FreshFolder(d, ImportFolder(h.tempDir, env.guid))
    requires Acceptable(upload) && env.saveOk && upload.value.archive.Some?
    requires NoneRefused(upload.value.archive.value)
    ensures var tmp := ImportFolder(h.tempDir, env.guid);
      var a := upload.value.archive.value;
      var d1 := WriteFile(MakeDir(d, tmp), Combine(tmp, "backup.zip"), upload.value.bytes);
      var key := Combine(tmp, DbEntryName);
      ExtractAll(d1, tmp, a).Extracted?
      && SameAt(ExtractAll(d1, tmp, a).disk, d, s.dbPath)
      && (key in ExtractAll(d1, tmp, a).disk.files <==> LastWrite(a, tmp, key).Some?)
      && (key in ExtractAll(d1, tmp, a).disk.files ==> ExtractAll(d1, tmp, a).disk.files[key] == LastWrite(a, tmp, key).value)
      && Under(key, tmp)
  {
    var tmp := ImportFolder(h.tempDir, env.guid);
    var a := upload.value.archive.value;
    var d1 := WriteFile(MakeDir(d, tmp), Combine(tmp, "backup.zip"), upload.value.bytes);
    ExtractCompletes(d1, tmp, a);
    DbKeyInTemp(d1, tmp, a);
    CombineUnder(tmp, "backup.zip");
    CombineUnder(tmp, DbEntryName);
    ExtractStaysInside(d1, tmp, a);
  }

  /** After a restore that ends in the redirect, the running database
      holds what the archive's database.db entry carried. */
  lemma LiveDbRestored(s: Settings, h: Host, d: Disk, count: nat, upload: Option<Upload>, env: RestoreEnv)
    requires Separate(s, h, env) && FreshFolder(d, ImportFolder(h.tempDir, env.guid))
    requires CleanListing(Combine(ImportFolder(h.tempDir, env.guid), "uploads"), env.listing)
    ensures var r := RestoreRun(s, h, d, count, upload, env);
      var tmp := ImportFolder(h.tempDir, env.guid);
      r.response.RedirectTo? && Acceptable(upload) && upload.value.archive.Some? ==>
        var b := LastWrite(upload.value.archive.value, tmp, Combine(tmp, DbEntryName));
        b.Some? && s.dbPath in r.disk.files && r.disk.files[s.dbPath] == b.value
  {
    var r := RestoreRun(s, h, d, count, upload, env);
    RestoreSucceedsIff(s, h, d, count, upload, env);
    if r.response.RedirectTo? {
      ApplyAndUploads(s, h, d, upload, env);
    }
  }

  /** The state after the apply and uploads steps, for a restore whose
      checks all pass. */
  lemma ApplyAndUploads(s: Settings, h: Host, d: Disk, upload: Option<Upload>, env: RestoreEnv)
    requires Separate(s, h, env) && FreshFolder(d, ImportFolder(h.tempDir, env.guid))
    requires CleanListing(Combine(ImportFolder(h.tempDir, env.guid), "uploads"), env.listing)
    requires Acceptable(upload) && env.createOk && env.saveOk && upload.value.archive.Some?
    requires NoneRefused(upload.value.archive.value) && env.applyOk
    requires env.integrity.Status? && EqualsIgnoreCase(env.integrity.text, "ok")
    requires LastWrite(upload.value.archive.value, ImportFolder(h.tempDir, env.guid), Combine(ImportFolder(h.tempDir, env.guid), DbEntryName)).Some?
    ensures var r := RestoreRun(s, h, d, 1, upload, env);
      var tmp := ImportFolder(h.tempDir, env.guid);
      var b := LastWrite(upload.value.archive.value, tmp, Combine(tmp, DbEntryName));
      r.response == RedirectTo("Index", "Photos")
      && s.dbPath in r.disk.files && r.disk.files[s.dbPath] == b.value
      && (s.dbPath in d.files && env.fallbackOk ==>
            FallbackPath(s, env) in r.disk.files && r.disk.files[FallbackPath(s, env)] == d.files[s.dbPath])
  {
    var tmp := ImportFolder(h.tempDir, env.guid);
    var a := upload.value.archive.value;
    ExtractedDb(s, h, d, upload, env);
    var d1 := WriteFile(MakeDir(d, tmp), Combine(tmp, "backup.zip"), upload.value.bytes);
    var d2 := ExtractAll(d1, tmp, a).disk;
    RestoreRunSteps(s, h, d, upload, env);
    RestoreStepsExtracted(s, h, MakeDir(d, tmp), tmp, upload.value, env);
    CheckPasses(s, h, d2, tmp, env);
    ApplyEffect(s, h, d2, tmp, env);
  }

  /** An acceptable upload with the gate free and the folder created
      runs the try block, then the cleanup. */
  lemma RestoreRunSteps(s: Settings, h: Host, d: Disk, upload: Option<Upload>, env: RestoreEnv)
    requires Acceptable(upload) && env.createOk
    ensures var tmp := ImportFolder(h.tempDir, env.guid);
      var st := RestoreSteps(s, h, MakeDir(d, tmp), tmp, upload.value, env);
      RestoreRun(s, h, d, 1, upload, env) == Run(st.response, RemoveTemp(st.disk, tmp, env.cleanupOk), 1, [])
  { }

  /** A saved upload whose archive extracts goes on to the checks. */
  lemma RestoreStepsExtracted(s: Settings, h: Host, d: Disk, tmp: string, u: Upload, env: RestoreEnv)
    requires env.saveOk && u.archive.Some?
    requires ExtractAll(WriteFile(d, Combine(tmp, "backup.zip"), u.bytes), tmp, u.archive.value).Extracted?
    ensures RestoreSteps(s, h, d, tmp, u, env) ==
      CheckSteps(s, h, ExtractAll(WriteFile(d, Combine(tmp, "backup.zip"), u.bytes), tmp, u.archive.value).disk, tmp, env)
  { }

  /** With database.db present and integrity_check saying "ok", the
      checks hand over to the apply steps. */
  lemma CheckPasses(s: Settings, h: Host, d2: Disk, tmp: string, env: RestoreEnv)
    requires Combine(tmp, DbEntryName) in d2.files
    requires env.integrity.Status? && EqualsIgnoreCase(env.integrity.text, "ok")
    ensures CheckSteps(s, h, d2, tmp, env) == ApplySteps(s, h, d2, tmp, env)
  { }

  /** A successful apply puts database.db into the running database and
      keeps the pre-restore copy, past the uploads step. */
  lemma ApplyEffect(s: Settings, h: Host, d2: Disk, tmp: string, env: RestoreEnv)
    requires Separate(s, h, env) && tmp == ImportFolder(h.tempDir, env.guid)
    requires CleanListing(Combine(tmp, "uploads"), env.listing)
    requires Combine(tmp, DbEntryName) in d2.files && env.applyOk
    ensures var st := ApplySteps(s, h, d2, tmp, env);
      var key := Combine(tmp, DbEntryName);
      st.response == RedirectTo("Index", "Photos")
      && s.dbPath in st.disk.files && st.disk.files[s.dbPath] == d2.files[key]
      && (s.dbPath in d2.files && env.fallbackOk ==>
            FallbackPath(s, env) in st.disk.files && st.disk.files[FallbackPath(s, env)] == d2.files[s.dbPath])
  {
    var key := Combine(tmp, DbEntryName);
    ImportFolderNamed(h.tempDir, env.guid);
    DbKeyNotZip(tmp);
    var d3 := SaveFallback(d2, s, env);
    assert d3.files[key] == d2.files[key];
    var d4 := WriteFile(d3, s.dbPath, d3.files[key]);
    var source := Combine(tmp, "uploads");
    if DirExists(d4, source) {
      UploadsAfterFrame(d4, source, RestoreUploads(h), env.dirListing, env.listing, env.uploads, s.dbPath);
      UploadsAfterFrame(d4, source, RestoreUploads(h), env.dirListing, env.listing, env.uploads, FallbackPath(s, env));
    }
  }

  /** Restoring an archive GetBackup produced earlier brings the running
      database back to what it held when the backup was taken, whatever
      happened to it since. */
  lemma BackupRestoreRoundTrip(s: Settings, h: Host, d: Disk, benv: BackupEnv,
                               later: Disk, bytes: Bytes, env: RestoreEnv)
    requires SnapshotPath(h.tempDir, benv.snapshotStamp, benv.guid) != s.dbPath
    requires forall i :: 0 <= i < |benv.listing| ==> PlainRelative(UploadRel(BackupUploads(h), benv.listing[i]))
    requires GetBackupRun(s, h, d, 1, benv).response.ZipDownload?
    requires 0 < |bytes| <= MaxUploadBytes
    requires env.createOk && env.saveOk && env.applyOk && env.integrity == Status("ok")
    requires Separate(s, h, env) && FreshFolder(later, ImportFolder(h.tempDir, env.guid))
    requires CleanListing(Combine(ImportFolder(h.tempDir, env.guid), "uploads"), env.listing)
    ensures var a := GetBackupRun(s, h, d, 1, benv).response.archive;
      var r := RestoreRun(s, h, later, 1, Some(Upload(bytes, Some(a))), env);
      r.response == RedirectTo("Index", "Photos")
      && s.dbPath in r.disk.files && r.disk.files[s.dbPath] == d.files[s.dbPath]
  {
    var a := GetBackupRun(s, h, d, 1, benv).response.archive;
    var rtmp := ImportFolder(h.tempDir, env.guid);
    BackupArchiveExtracts(s, h, d, benv, rtmp);
    ApplyAndUploads(s, h, later, Some(Upload(bytes, Some(a))), env);
  }

  /** Restoring an archive GetBackup produced earlier, when the uploads
      folder held files then, also brings the uploads back: afterwards the
      live folder holds exactly the files GetBackup listed, each with the
      contents it had at backup time. */
  lemma BackupRestoreUploadsRoundTrip(s: Settings, h: Host, d: Disk, benv: BackupEnv,
                                      later: Disk, bytes: Bytes, env: RestoreEnv)
    requires h.webRoot.Some?
    requires SnapshotPath(h.tempDir, benv.snapshotStamp, benv.guid) != s.dbPath
    requires SnapshotPath(h.tempDir, benv.snapshotStamp, benv.guid) !in benv.listing
    requires forall i :: 0 <= i < |benv.listing| ==> PlainRelative(UploadRel(BackupUploads(h), benv.listing[i]))
    requires IsListing(d.files, BackupUploads(h), benv.listing) && |benv.listing| > 0
    requires GetBackupRun(s, h, d, 1, benv).response.ZipDownload?
    requires 0 < |bytes| <= MaxUploadBytes
    requires env.createOk && env.saveOk && env.applyOk && env.integrity == Status("ok") && env.uploads.Replaced?
    requires Separate(s, h, env) && FreshFolder(later, ImportFolder(h.tempDir, env.guid)) && UploadsApart(h, env)
    requires CleanListing(Combine(ImportFolder(h.tempDir, env.guid), "uploads"), env.listing)
    requires IsListing(RestoreExtraction(h, later, Upload(bytes, Some(GetBackupRun(s, h, d, 1, benv).response.archive)), env).files,
                       Combine(ImportFolder(h.tempDir, env.guid), "uploads"), env.listing)
    ensures var a := GetBackupRun(s, h, d, 1, benv).response.archive;
      var r := RestoreRun(s, h, later, 1, Some(Upload(bytes, Some(a))), env);
      r.response == RedirectTo("Index", "Photos")
      && (forall i :: 0 <= i < |benv.listing| ==>
            var f := benv.listing[i];
            f in r.disk.files && r.disk.files[f] == d.files[f])
      && (forall q :: q in r.disk.files && Under(q, BackupUploads(h)) ==> q in benv.listing)
  {
    var a := GetBackupRun(s, h, d, 1, benv).response.archive;
    var p := BackupPairs(s, h, d, benv);
    RestoreLayoutUploads(s, h, later, bytes, env, d.files[s.dbPath], p);
    ListedBack(RestoreRun(s, h, later, 1, Some(Upload(bytes, Some(a))), env).disk, BackupUploads(h), benv.listing, p);
  }

  /** Restoring a backup archive that carries uploads, with every check
      passing and the replacement done: the live uploads folder ends
      holding each upload at its relative path with its contents, and
      nothing else. */
  lemma RestoreLayoutUploads(s: Settings, h: Host, d: Disk, bytes: Bytes, env: RestoreEnv, db: Bytes, p: seq<(string, Bytes)>)
    requires Separate(s, h, env) && FreshFolder(d, ImportFolder(h.tempDir, env.guid)) && UploadsApart(h, env)
    requires CleanListing(Combine(ImportFolder(h.tempDir, env.guid), "uploads"), env.listing)
    requires 0 < |bytes| <= MaxUploadBytes
    requires env.createOk && env.saveOk && env.applyOk && env.integrity == Status("ok") && env.uploads.Replaced?
    requires |p| > 0 && forall i :: 0 <= i < |p| ==> PlainRelative(p[i].0)
    requires forall i, j :: 0 <= i < j < |p| ==> p[i].0 != p[j].0
    requires IsListing(RestoreExtraction(h, d, Upload(bytes, Some(BackupLayout(db, p))), env).files,
                       Combine(ImportFolder(h.tempDir, env.guid), "uploads"), env.listing)
    ensures var r := RestoreRun(s, h, d, 1, Some(Upload(bytes, Some(BackupLayout(db, p)))), env);
      var target := RestoreUploads(h);
      r.response == RedirectTo("Index", "Photos")
      && (forall i :: 0 <= i < |p| ==> Combine(target, p[i].0) in r.disk.files && r.disk.files[Combine(target, p[i].0)] == p[i].1)
      && (forall q :: q in r.disk.files && Under(q, target) ==> exists i :: 0 <= i < |p| && q == Combine(target, p[i].0))
  {
    var a := BackupLayout(db, p);
    var u := Upload(bytes, Some(a));
    var tmp := ImportFolder(h.tempDir, env.guid);
    ImportFolderNamed(h.tempDir, env.guid);
    LayoutAccepted(db, p);
    DbWrittenOnce(tmp, db, p);
    assert EqualsIgnoreCase("ok", "ok");
    assert Applies(h, 1, Some(u), env);
    RestoreReplacesUploads(s, h, d, u, env);
    var d1 := WriteFile(MakeDir(d, tmp), Combine(tmp, "backup.zip"), bytes);
    ExtractCompletes(d1, tmp, a);
    SavedOutsideUploads(d, tmp, bytes);
    LayoutMirrored(RestoreRun(s, h, d, 1, Some(u), env).disk, RestoreUploads(h), d1, tmp, db, p);
  }

  /** GetBackup's archive laid out as relative paths and contents: one
      pair per listed upload, in listing order, with the file's contents. */
  lemma BackupPairs(s: Settings, h: Host, d: Disk, benv: BackupEnv) returns (p: seq<(string, Bytes)>)
    requires SnapshotPath(h.tempDir, benv.snapshotStamp, benv.guid) != s.dbPath
    requires SnapshotPath(h.tempDir, benv.snapshotStamp, benv.guid) !in benv.listing
    requires forall i :: 0 <= i < |benv.listing| ==> PlainRelative(UploadRel(BackupUploads(h), benv.listing[i]))
    requires IsListing(d.files, BackupUploads(h), benv.listing) && |benv.listing| > 0
    requires GetBackupRun(s, h, d, 1, benv).response.ZipDownload?
    ensures var a := GetBackupRun(s, h, d, 1, benv).response.archive;
      s.dbPath in d.files && a == BackupLayout(d.files[s.dbPath], p)
      && |p| == |benv.listing|
      && (forall i :: 0 <= i < |p| ==> PlainRelative(p[i].0))
      && (forall i, j :: 0 <= i < j < |p| ==> p[i].0 != p[j].0)
      && (forall i :: 0 <= i < |p| ==>
            p[i].0 == Relative(benv.listing[i], BackupUploads(h)) && p[i].1 == d.files[benv.listing[i]])
  {
    var uploads := BackupUploads(h);
    assert DirExists(d, uploads) by { assert benv.listing[0] in d.files && Under(benv.listing[0], uploads); }
    p := ServedUploads(s, h, d, benv);
    forall i, j | 0 <= i < j < |p| ensures p[i].0 != p[j].0 {
      UnderRelative(benv.listing[i], uploads);
      UnderRelative(benv.listing[j], uploads);
    }
  }

  /** When the uploads folder exists, the archive GetBackup serves is
      the layout of the database and of each listed upload's relative
      path and contents. */
  lemma ServedUploads(s: Settings, h: Host, d: Disk, benv: BackupEnv) returns (p: seq<(string, Bytes)>)
    requires SnapshotPath(h.tempDir, benv.snapshotStamp, benv.guid) != s.dbPath
    requires SnapshotPath(h.tempDir, benv.snapshotStamp, benv.guid) !in benv.listing
    requires DirExists(d, BackupUploads(h))
    requires GetBackupRun(s, h, d, 1, benv).response.ZipDownload?
    ensures s.dbPath in d.files && GetBackupRun(s, h, d, 1, benv).response.archive == BackupLayout(d.files[s.dbPath], p)
    ensures |p| == |benv.listing| && forall i :: 0 <= i < |p| ==>
      benv.listing[i] in d.files && p[i] == (UploadRel(BackupUploads(h), benv.listing[i]), d.files[benv.listing[i]])
  {
    var uploads := BackupUploads(h);
    var tmp := SnapshotPath(h.tempDir, benv.snapshotStamp, benv.guid);
    var d1 := TakeSnapshot(d, s.dbPath, tmp, benv.engine, benv.copyOk).0;
    assert TakeSnapshot(d, s.dbPath, tmp, benv.engine, benv.copyOk).1;
    assert DirExists(d1, uploads) by {
      if exists f :: f in d.files && Under(f, uploads) {
        var f :| f in d.files && Under(f, uploads);
        assert f in d1.files by { if f != tmp { assert SameAt(d1, d, f); } }
      }
    }
    p := UploadPairs(d1.files, uploads, benv.listing, benv.unreadable).value;
    forall i | 0 <= i < |p| ensures benv.listing[i] in d.files && p[i].1 == d.files[benv.listing[i]] {
      assert SameAt(d1, d, benv.listing[i]);
    }
  }

  /** A GetBackup archive extracts completely, and its database.db entry,
      the only one written to database.db, carries the database. */
  lemma BackupArchiveExtracts(s: Settings, h: Host, d: Disk, benv: BackupEnv, dir: string)
    requires SnapshotPath(h.tempDir, benv.snapshotStamp, benv.guid) != s.dbPath
    requires forall i :: 0 <= i < |benv.listing| ==> PlainRelative(UploadRel(BackupUploads(h), benv.listing[i]))
    requires GetBackupRun(s, h, d, 1, benv).response.ZipDownload?
    requires dir != "" && !EndsWithSep(dir)
    ensures var a := GetBackupRun(s, h, d, 1, benv).response.archive;
      NoneRefused(a) && s.dbPath in d.files && LastWrite(a, dir, Combine(dir, DbEntryName)) == Some(d.files[s.dbPath])
  {
    var tmp := SnapshotPath(h.tempDir, benv.snapshotStamp, benv.guid);
    var d1 := TakeSnapshot(d, s.dbPath, tmp, benv.engine, benv.copyOk).0;
    var uploads := BackupUploads(h);
    var db := d1.files[tmp];
    if DirExists(d1, uploads) {
      var p := UploadPairs(d1.files, uploads, benv.listing, benv.unreadable).value;
      assert GetBackupRun(s, h, d, 1, benv).response.archive == BackupLayout(db, p);
      forall i | 0 <= i < |p| ensures PlainRelative(p[i].0) {
        assert p[i].0 == UploadRel(uploads, benv.listing[i]);
      }
      LayoutAccepted(db, p);
      DbWrittenOnce(dir, db, p);
    } else {
      assert GetBackupRun(s, h, d, 1, benv).response.archive == BackupLayout(db, []);
      LayoutAccepted(db, []);
      DbWrittenOnce(dir, db, []);
    }
  }

  /** The checks that let a restore apply the archive: an acceptable
      upload, the gate free, the folder created and the upload saved, an
      archive that extracts whole with database.db at its root, and
      integrity_check saying "ok"; then BackupDatabase succeeding. */
  predicate Applies(h: Host, count: nat, upload: Option<Upload>, env: RestoreEnv) {
    var tmp := ImportFolder(h.tempDir, env.guid);
    Acceptable(upload) && count > 0 && env.createOk && env.saveOk
    && upload.value.archive.Some? && NoneRefused(upload.value.archive.value)
    && LastWrite(upload.value.archive.value, tmp, Combine(tmp, DbEntryName)).Some?
    && env.integrity.Status? && EqualsIgnoreCase(env.integrity.text, "ok") && env.applyOk
  }

  /** The disk once a restore has extracted its archive into the
      temporary folder. */
  function RestoreExtraction(h: Host, d: Disk, u: Upload, env: RestoreEnv): Disk
    requires u.archive.Some?
  {
    var tmp := ImportFolder(h.tempDir, env.guid);
    ExtractAll(WriteFile(MakeDir(d, tmp), Combine(tmp, "backup.zip"), u.bytes), tmp, u.archive.value).disk
  }

  /** The temporary folder and the live uploads folder do not overlap. */
  predicate UploadsApart(h: Host, env: RestoreEnv) {
    Apart(ImportFolder(h.tempDir, env.guid), RestoreUploads(h))
  }

  /** The database and the pre-restore copy lie outside the extracted
      uploads folder, which is apart from the live one. */
  lemma OutsideSource(s: Settings, h: Host, env: RestoreEnv)
    requires Separate(s, h, env) && UploadsApart(h, env)
    ensures var tmp := ImportFolder(h.tempDir, env.guid);
      var source := Combine(tmp, "uploads");
      tmp != "" && Under(source, tmp) && Apart(source, RestoreUploads(h))
      && !Under(s.dbPath, source) && !Under(FallbackPath(s, env), source)
  {
    var tmp := ImportFolder(h.tempDir, env.guid);
    var source := Combine(tmp, "uploads");
    ImportFolderNamed(h.tempDir, env.guid);
    ExtractedUploadsApart(tmp, RestoreUploads(h));
    if Under(s.dbPath, source) { UnderNested(s.dbPath, source, tmp); }
    if Under(FallbackPath(s, env), source) { UnderNested(FallbackPath(s, env), source, tmp); }
  }

  /** When every check passes, the archive brought an uploads folder and
      the replacement goes through, the restore redirects and the live
      uploads folder holds exactly the extracted uploads, at the same
      relative paths with the same contents: the old uploads are gone. */
  lemma RestoreReplacesUploads(s: Settings, h: Host, d: Disk, u: Upload, env: RestoreEnv)
    requires Separate(s, h, env) && FreshFolder(d, ImportFolder(h.tempDir, env.guid)) && UploadsApart(h, env)
    requires CleanListing(Combine(ImportFolder(h.tempDir, env.guid), "uploads"), env.listing)
    requires Applies(h, 1, Some(u), env) && env.uploads.Replaced?
    requires IsListing(RestoreExtraction(h, d, u, env).files, Combine(ImportFolder(h.tempDir, env.guid), "uploads"), env.listing)
    ensures var r := RestoreRun(s, h, d, 1, Some(u), env);
      var source := Combine(ImportFolder(h.tempDir, env.guid), "uploads");
      r.response == RedirectTo("Index", "Photos")
      && (DirExists(RestoreExtraction(h, d, u, env), source) ==>
            Mirrors(r.disk, RestoreUploads(h), RestoreExtraction(h, d, u, env), source))
  {
    var tmp := ImportFolder(h.tempDir, env.guid);
    var source := Combine(tmp, "uploads");
    var e := RestoreExtraction(h, d, u, env);
    ExtractedDb(s, h, d, Some(u), env);
    RestoreRunSteps(s, h, d, Some(u), env);
    RestoreStepsExtracted(s, h, MakeDir(d, tmp), tmp, u, env);
    CheckPasses(s, h, e, tmp, env);
    ApplyEffect(s, h, e, tmp, env);
    if DirExists(e, source) {
      ApplyMirrors(s, h, e, env);
      MirrorsAfterCleanup(ApplySteps(s, h, e, tmp, env).disk, tmp, RestoreUploads(h), e, source, env.cleanupOk);
    }
  }

  /** The apply steps, when the extracted uploads folder exists and the
      replacement goes through, leave the live folder mirroring it. */
  lemma ApplyMirrors(s: Settings, h: Host, e: Disk, env: RestoreEnv)
    requires Separate(s, h, env) && UploadsApart(h, env)
    requires var tmp := ImportFolder(h.tempDir, env.guid);
      Combine(tmp, DbEntryName) in e.files && env.applyOk && env.uploads.Replaced?
      && CleanListing(Combine(tmp, "uploads"), env.listing)
      && IsListing(e.files, Combine(tmp, "uploads"), env.listing) && DirExists(e, Combine(tmp, "uploads"))
    ensures var tmp := ImportFolder(h.tempDir, env.guid);
      Mirrors(ApplySteps(s, h, e, tmp, env).disk, RestoreUploads(h), e, Combine(tmp, "uploads"))
  {
    var tmp := ImportFolder(h.tempDir, env.guid);
    var source := Combine(tmp, "uploads");
    var target := RestoreUploads(h);
    OutsideSource(s, h, env);
    var d3 := SaveFallback(e, s, env);
    var d4 := WriteFile(d3, s.dbPath, d3.files[Combine(tmp, DbEntryName)]);
    if s.dbPath in e.files && env.fallbackOk {
      DirExistsWrite(e, FallbackPath(s, env), e.files[s.dbPath], source);
    }
    DirExistsWrite(d3, s.dbPath, d3.files[Combine(tmp, DbEntryName)], source);
    forall f | Under(f, source) ensures SameAt(e, d4, f) {
      assert SameAt(d3, e, f);
    }
    assert IsListing(d4.files, source, env.listing);
    ReplaceUploadsMirrors(d4, source, target, env.dirListing, env.listing);
    var r := ReplaceUploads(d4, source, target, env.dirListing, env.listing);
    forall p | Under(p, target) ensures SameAt(r, r, p) { }
    MirrorsAcross(r, r, target, d4, e, source);
  }

  /** Conversely, the live uploads folder changes only when every check
      passed, BackupDatabase succeeded and the extracted archive has an
      uploads folder: a restore whose archive brought none, or that
      stopped earlier, leaves every file inside the live folder. */
  lemma RestoreKeepsUploads(s: Settings, h: Host, d: Disk, count: nat, upload: Option<Upload>, env: RestoreEnv, p: string)
    requires Separate(s, h, env) && FreshFolder(d, ImportFolder(h.tempDir, env.guid)) && UploadsApart(h, env)
    requires Under(p, RestoreUploads(h))
    ensures !SameAt(RestoreRun(s, h, d, count, upload, env).disk, d, p) ==>
      Applies(h, count, upload, env)
      && DirExists(RestoreExtraction(h, d, upload.value, env), Combine(ImportFolder(h.tempDir, env.guid), "uploads"))
  {
    var tmp := ImportFolder(h.tempDir, env.guid);
    ApartTrees(tmp, RestoreUploads(h), p);
    OutsideSource(s, h, env);
    if Acceptable(upload) && count > 0 && env.createOk {
      var u := upload.value;
      var st := RestoreSteps(s, h, MakeDir(d, tmp), tmp, u, env);
      assert RestoreRun(s, h, d, count, upload, env).disk == RemoveTemp(st.disk, tmp, env.cleanupOk);
      assert SameAt(MakeDir(d, tmp), d, p);
      StepsKeepUploads(s, h, MakeDir(d, tmp), tmp, u, env, p);
      if !SameAt(st.disk, MakeDir(d, tmp), p) {
        var d1 := WriteFile(MakeDir(d, tmp), Combine(tmp, "backup.zip"), u.bytes);
        ExtractCompletes(d1, tmp, u.archive.value);
        ExtractedDb(s, h, d, upload, env);
        assert Applies(h, count, upload, env);
      }
    }
  }

  /** The try block changes a path outside the temporary folder, other
      than the database and the pre-restore copy, only past a successful
      apply, and only when the extracted archive has an uploads folder. */
  lemma {:induction false} StepsKeepUploads(s: Settings, h: Host, d0: Disk, tmp: string, u: Upload, env: RestoreEnv, p: string)
    requires tmp != "" && !EndsWithSep(tmp) && !Under(p, tmp) && p != s.dbPath && p != FallbackPath(s, env)
    requires !Under(s.dbPath, Combine(tmp, "uploads")) && !Under(FallbackPath(s, env), Combine(tmp, "uploads"))
    ensures !SameAt(RestoreSteps(s, h, d0, tmp, u, env).disk, d0, p) ==>
      env.saveOk && u.archive.Some? && env.integrity.Status? && EqualsIgnoreCase(env.integrity.text, "ok") && env.applyOk
      && var x := ExtractAll(WriteFile(d0, Combine(tmp, "backup.zip"), u.bytes), tmp, u.archive.value);
      x.Extracted? && Combine(tmp, DbEntryName) in x.disk.files && DirExists(x.disk, Combine(tmp, "uploads"))
  {
    if env.saveOk && u.archive.Some? {
      var a := u.archive.value;
      var d1 := WriteFile(d0, Combine(tmp, "backup.zip"), u.bytes);
      DbKeyNotZip(tmp);
      assert SameAt(d1, d0, p);
      var x := ExtractAll(d1, tmp, a);
      ExtractStaysInside(d1, tmp, a);
      assert SameAt(x.disk, d1, p);
      if x.Extracted? {
        assert RestoreSteps(s, h, d0, tmp, u, env) == CheckSteps(s, h, x.disk, tmp, env);
        ChecksKeepUploads(s, h, x.disk, tmp, env, p);
      }
    }
  }

  /** The checks and the apply steps change such a path only past a
      successful apply, and only when the uploads folder exists. */
  lemma ChecksKeepUploads(s: Settings, h: Host, d2: Disk, tmp: string, env: RestoreEnv, p: string)
    requires p != s.dbPath && p != FallbackPath(s, env)
    requires !Under(s.dbPath, Combine(tmp, "uploads")) && !Under(FallbackPath(s, env), Combine(tmp, "uploads"))
    ensures !SameAt(CheckSteps(s, h, d2, tmp, env).disk, d2, p) ==>
      env.integrity.Status? && EqualsIgnoreCase(env.integrity.text, "ok") && env.applyOk
      && Combine(tmp, DbEntryName) in d2.files && DirExists(d2, Combine(tmp, "uploads"))
  {
    var key := Combine(tmp, DbEntryName);
    if key in d2.files && env.integrity.Status? && EqualsIgnoreCase(env.integrity.text, "ok") && env.applyOk {
      var d3 := SaveFallback(d2, s, env);
      if s.dbPath in d2.files && env.fallbackOk {
        DirExistsWrite(d2, FallbackPath(s, env), d2.files[s.dbPath], Combine(tmp, "uploads"));
      }
      DirExistsWrite(d3, s.dbPath, d3.files[key], Combine(tmp, "uploads"));
    }
  }

  /** The snapshot steps of GetBackup on the file system. */
  method MakeSnapshot(fs: FileSystem, live: string, tmp: string, engine: Engine, copyOk: bool) returns (made: bool)
    requires live in fs.files
    modifies fs
    ensures (fs.View(), made) == TakeSnapshot(old(fs.View()), live, tmp, engine, copyOk)
  {
    made := false;
    match engine {
      case Copied =>
        fs.WriteAllBytes(tmp, fs.files[live]);
        made := true;
      case EngineFailed(left) =>
        if left {
          fs.WriteAllBytes(tmp, []);
        }
        if copyOk {
          fs.Copy(live, tmp);
          made := true;
        }
    }
  }

  /** The archive loop of GetBackup: database.db, then one entry per
      listed upload, read in listing order; None when a file cannot be
      opened. */
  method CollectArchive(files: map<string, Bytes>, db: Bytes, uploads: string, listing: seq<string>, unreadable: set<string>)
    returns (archive: Option<Archive>)
    ensures archive == match UploadPairs(files, uploads, listing, unreadable)
      case None => None
      case Some(p) => Some(BackupLayout(db, p))
  {
    var entries: Archive := [Entry(DbEntryName, db)];
    ghost var pairs: seq<(string, Bytes)> := [];
    for i := 0 to |listing|
      invariant UploadPairs(files, uploads, listing[..i], unreadable) == Some(pairs)
      invariant entries == BackupLayout(db, pairs)
    {
      UploadPairsPrefix(files, uploads, listing, unreadable, i);
      var f := listing[i];
      if f !in files || f in unreadable {
        UploadPairsMissing(files, uploads, listing, unreadable, i);
        return None;
      }
      var x := (UploadRel(uploads, f), files[f]);
      BackupLayoutSnoc(db, pairs, x);
      entries := entries + [Entry(UploadEntryName(x.0), x.1)];
      pairs := pairs + [x];
    }
    assert listing[..|listing|] == listing;
    archive := Some(entries);
  }

  lemma UploadPairsPrefix(files: map<string, Bytes>, folder: string, listing: seq<string>, unreadable: set<string>, i: nat)
    requires i < |listing|
    ensures var f := listing[i];
      UploadPairs(files, folder, listing[..i + 1], unreadable) ==
        match UploadPairs(files, folder, listing[..i], unreadable)
        case None => None
        case Some(p) => if f in files && f !in unreadable then Some(p + [(UploadRel(folder, f), files[f])]) else None
  {
    var q := listing[..i + 1];
    assert q[..i] == listing[..i] && q[i] == listing[i];
  }

  lemma UploadPairsMissing(files: map<string, Bytes>, folder: string, listing: seq<string>, unreadable: set<string>, i: nat)
    requires i < |listing| && (listing[i] !in files || listing[i] in unreadable)
    ensures UploadPairs(files, folder, listing, unreadable).None?
  { }

  // ------------------------------------------------------------ controller

  /** The controller: settings fixed at construction; the actions act on
      the file system and on the gate every instance shares. */
  class DatabaseBackupController {
    const settings: Settings
    const host: Host

    /** Resolves the database from configuration and creates the backups
        folder under the content root, ignoring a failure to do so. */
    constructor (c: Config, h: Host, fs: FileSystem, createOk: bool)
      modifies fs
      ensures settings.dbPath == ResolveLocation(c, h).dbPath
      ensures settings.connString == ResolveLocation(c, h).connString
      ensures settings.backupFolder == Combine(RootOrBase(h), "db-backups")
      ensures host == h
      ensures fs.View() == if createOk then MakeDir(old(fs.View()), settings.backupFolder) else old(fs.View())
    {
      var loc := ResolveLocation(c, h);
      settings := Settings(loc.dbPath, loc.connString, Combine(RootOrBase(h), "db-backups"));
      host := h;
      new;
      if createOk {
        fs.CreateDirectory(settings.backupFolder);
      }
    }

    /** GetBackup: the body runs between WaitAsync and the finally
        block's Release. */
    method GetBackup(fs: FileSystem, gate: OpGate, env: BackupEnv) returns (response: Response, afterResponse: seq<string>)
      modifies fs, gate
      ensures var r := GetBackupRun(settings, host, old(fs.View()), old(gate.count), env);
        response == r.response && fs.View() == r.disk && gate.count == r.count && afterResponse == r.afterResponse
    {
      var entered := gate.Wait();
      if !entered {
        return Blocked, [];
      }
      GetBackupCount(settings, host, fs.View(), old(gate.count), env);
      response, afterResponse := BackupBody(fs, env);
      gate.Release();
    }

    /** The try block of GetBackup. */
    method BackupBody(fs: FileSystem, env: BackupEnv) returns (response: Response, afterResponse: seq<string>)
      modifies fs
      ensures var r := GetBackupRun(settings, host, old(fs.View()), 1, env);
        response == r.response && fs.View() == r.disk && afterResponse == r.afterResponse
    {
      if settings.dbPath !in fs.files {
        return NotFound("DB file not found."), [];
      }
      var tmp := SnapshotPath(host.tempDir, env.snapshotStamp, env.guid);
      var made := MakeSnapshot(fs, settings.dbPath, tmp, env.engine, env.copyOk);
      if !made {
        return ServerError("Failed to prepare DB for backup: " + env.cause), [];
      }
      var uploads := BackupUploads(host);
      var archive: Archive;
      if DirExists(fs.View(), uploads) {
        var collected := CollectArchive(fs.files, fs.files[tmp], uploads, env.listing, env.unreadable);
        if collected.None? {
          return ServerError("Failed to create backup: " + env.cause), [];
        }
        archive := collected.value;
      } else {
        archive := [Entry(DbEntryName, fs.files[tmp])];
        assert archive == BackupLayout(fs.files[tmp], []);
      }
      response := ZipDownload(archive, BackupZipName(env.zipStamp));
      afterResponse := [tmp];
    }

    /** RestoreBackup: the size checks, WaitAsync, the temporary folder,
        the try block, and the finally block's cleanup and Release. */
    method RestoreBackup(fs: FileSystem, gate: OpGate, upload: Option<Upload>, env: RestoreEnv) returns (response: Response)
      modifies fs, gate
      ensures var r := RestoreRun(settings, host, old(fs.View()), old(gate.count), upload, env);
        response == r.response && fs.View() == r.disk && gate.count == r.count
    {
      if upload.None? || |upload.value.bytes| == 0 {
        return BadRequest(NoFileMessage);
      }
      if |upload.value.bytes| > MaxUploadBytes {
        return BadRequest(TooLargeMessage);
      }
      var entered := gate.Wait();
      if !entered {
        return Blocked;
      }
      var tmp := ImportFolder(host.tempDir, env.guid);
      if !env.createOk {
        return Unhandled;
      }
      fs.CreateDirectory(tmp);
      response := RestoreBody(fs, tmp, upload.value, env);
      if DirExists(fs.View(), tmp) && env.cleanupOk {
        fs.DeleteDirectory(tmp);
      }
      gate.Release();
    }

    /** The try block of RestoreBackup. */
    method RestoreBody(fs: FileSystem, tmp: string, u: Upload, env: RestoreEnv) returns (response: Response)
      modifies fs
      ensures Step(response, fs.View()) == RestoreSteps(settings, host, old(fs.View()), tmp, u, env)
    {
      if !env.saveOk {
        return ServerError("Restore failed: " + env.cause);
      }
      fs.WriteAllBytes(Combine(tmp, "backup.zip"), u.bytes);
      if u.archive.None? {
        return BadRequest(NotZipMessage);
      }
      var extracted := ExtractToDirectory(fs, tmp, u.archive.value);
      if !extracted {
        return BadRequest(NotZipMessage);
      }
      var extractedDb := Combine(tmp, DbEntryName);
      if extractedDb !in fs.files {
        return BadRequest(NoDbMessage);
      }
      match env.integrity {
        case CannotOpen =>
          return BadRequest(CannotCheckMessage);
        case Status(t) =>
          if !EqualsIgnoreCase(t, "ok") {
            return BadRequest("Uploaded DB failed integrity_check: " + t);
          }
      }
      if settings.dbPath in fs.files && env.fallbackOk {
        fs.WriteAllBytes(FallbackPath(settings, env), fs.files[settings.dbPath]);
      }
      if !env.applyOk {
        return ServerError("Failed to apply uploaded DB into running DB: " + env.cause);
      }
      fs.WriteAllBytes(settings.dbPath, fs.files[extractedDb]);
      var source := Combine(tmp, "uploads");
      if DirExists(fs.View(), source) {
        var replaced := ReplaceUploadsFolder(fs, source, RestoreUploads(host), env.dirListing, env.listing, env.uploads);
      }
      response := RedirectTo("Index", "Photos");
    }
  }
}
