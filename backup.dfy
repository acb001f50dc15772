/** BackupController (/Backup): Export, which zips the database and the
    uploads, reading the live database file directly when it can and a
    temporary snapshot of it otherwise, and Restore, which unpacks such a
    ZIP over the database file and the uploads folder. What each attempt
    to open a file finds, the SQLite engine's BackupDatabase and the other
    fallible calls are inputs. */
module Backup {
  import opened Text
  import opened Paths
  import opened Hosting
  import opened DataSource
  import opened FileStore
  import opened Zip
  import opened Retry
  import opened Transfer

  // --------------------------------------------------------------- Export

  /** The inputs of one Export: the time stamps of the ZIP name and of the
      snapshot name (the clock is read twice) and the GUID; what the
      attempts to open the database find; per uploads file, what its
      attempts find in the direct pass and in the snapshot pass; whether
      BackupDatabase and File.Copy succeed; what the attempts to open the
      snapshot find; what Directory.GetFiles lists in the uploads folder;
      and the message of an exception. */
  datatype ExportEnv = ExportEnv(
    zipStamp: string, tmpStamp: string, guid: string,
    dbAttempts: seq<OpenResult>,
    directFileAttempts: string -> seq<OpenResult>,
    engineOk: bool, copyOk: bool,
    tmpAttempts: seq<OpenResult>,
    snapshotFileAttempts: string -> seq<OpenResult>,
    listing: seq<string>,
    cause: string)

  const DbRetries: int := 60
  const FileRetries: int := 30
  // The verifier reads the characters of short literals only, hence the two parts.
  const NoSnapshotMessage: string :=
    "Nelze vytvořit dočasnou kopii DB pro zálohu "
    + "(všechny pokusy selhaly). Zkuste zavřít DB nástroje, vypnout antivirus nebo restartovat aplikaci."
  const ExportFailedPrefix: string := "Chyba při vytváření zálohy: "

  function MissingDbMessage(path: string): string {
    "Nelze najít DB soubor: " + path
  }

  function SnapshotLockedMessage(tmp: string): string {
    "Soubor " + tmp + " je stále uzamčen po opakovaných pokusech."
  }

  /** The database Export reads: the connection string's data source, or
      photoapp.db under ContentRootPath ?? current directory when the
      parser finds none or an empty one. */
  function ExportDataSource(cs: Option<string>, h: Host): (r: string)
    ensures r != ""
    ensures GetSqliteDataSource(cs, h).None? ==> r == Combine(RootOrCwd(h), DefaultDbFile)
    ensures IsPathRooted(RootOrCwd(h)) ==> IsPathRooted(r)
  {
    CombineRooted(RootOrCwd(h), DefaultDbFile);
    match GetSqliteDataSource(cs, h)
    case Some(p) => if p != "" then p else Combine(RootOrCwd(h), DefaultDbFile)
    case None => Combine(RootOrCwd(h), DefaultDbFile)
  }

  /** What one uploads file contributes: its contents once an attempt
      opens it, nothing (an empty entry) when every attempt finds it
      locked, and None when opening it throws something other than an
      IOException, which ends the pass. */
  function ProbedUpload(files: map<string, Bytes>, f: string, attempts: seq<OpenResult>): (r: Option<Bytes>)
    ensures r.None? <==> ProbeOpen(attempts, FileRetries).Threw? || (ProbeOpen(attempts, FileRetries).Ready? && f !in files)
    ensures ProbeOpen(attempts, FileRetries).TimedOut? ==> r == Some([])
    ensures r.Some? && r.value != [] ==> f in files && r.value == files[f]
  {
    match ProbeOpen(attempts, FileRetries)
    case Ready(_) => if f in files then Some(files[f]) else None
    case TimedOut => Some([])
    case Threw(_) => None
  }

  /** The uploads of a pass, each listed file's relative path and what it
      contributes, in listing order; None when one of them ends the pass. */
  function ProbedUploads(files: map<string, Bytes>, folder: string, listing: seq<string>, attempts: string -> seq<OpenResult>)
    : (r: Option<seq<(string, Bytes)>>)
    ensures r.Some? <==> forall i :: 0 <= i < |listing| ==> ProbedUpload(files, listing[i], attempts(listing[i])).Some?
    ensures r.Some? ==> (|r.value| == |listing|
      && forall i :: 0 <= i < |listing| ==>
           r.value[i] == (UploadRel(folder, listing[i]), ProbedUpload(files, listing[i], attempts(listing[i])).value))
    decreases |listing|
  {
    if listing == [] then Some([])
    else
      var init := listing[..|listing| - 1];
      var f := listing[|listing| - 1];
      assert forall i :: 0 <= i < |init| ==> init[i] == listing[i];
      match ProbedUploads(files, folder, init, attempts)
      case None => None
      case Some(p) =>
        match ProbedUpload(files, f, attempts(f))
        case None => None
        case Some(b) => Some(p + [(UploadRel(folder, f), b)])
  }

  /** The archive of one pass: database.db with db, then the uploads when
      the uploads folder exists. */
  function ZipWith(files: map<string, Bytes>, db: Bytes, uploads: string, present: bool, listing: seq<string>,
                   attempts: string -> seq<OpenResult>): Option<Archive>
  {
    if !present then Some(BackupLayout(db, []))
    else
      match ProbedUploads(files, uploads, listing, attempts)
      case None => None
      case Some(p) => Some(BackupLayout(db, p))
  }

  /** The direct pass: when an attempt opens the database, the archive
      is built from the live file; None sends Export to the snapshot pass. */
  function DirectExport(d: Disk, ds: string, uploads: string, env: ExportEnv): Option<Archive>
    requires ds in d.files
  {
    if ProbeOpen(env.dbAttempts, DbRetries).Ready? then
      ZipWith(d.files, d.files[ds], uploads, DirExists(d, uploads), env.listing, env.directFileAttempts)
    else None
  }

  /** BackupDatabase is tried only for a connection string that mentions
      "data source" in any case. */
  predicate UseEngine(cs: Option<string>) {
    cs.Some? && cs.value != "" && Contains(LowerAll(cs.value), "data source")
  }

  /** Making the snapshot: BackupDatabase when the connection string
      allows it (its failure deletes whatever is at tmp), then, when that
      did not produce it, File.Copy without overwrite, which fails when
      tmp exists or the database is gone. made tells whether tmp was
      produced. */
  function MakeTemp(d: Disk, ds: string, tmp: string, useEngine: bool, env: ExportEnv): (r: (Disk, bool))
    requires ds in d.files
    ensures r.1 <==> (useEngine && env.engineOk) || (env.copyOk && tmp != ds && (useEngine || tmp !in d.files))
    ensures r.1 ==> tmp in r.0.files
    ensures r.1 && tmp != ds ==> r.0.files[tmp] == d.files[ds]
    ensures !r.1 ==> (useEngine ==> tmp !in r.0.files) && (!useEngine ==> r.0 == d)
    ensures forall p :: p != tmp ==> SameAt(r.0, d, p)
    ensures r.0.dirs == d.dirs
  {
    var d1 := if !useEngine then d else if env.engineOk then WriteFile(d, tmp, d.files[ds]) else DeleteFile(d, tmp);
    if useEngine && env.engineOk then (d1, true)
    else if env.copyOk && ds in d1.files && tmp !in d1.files then (CopyFile(d1, ds, tmp), true)
    else (d1, false)
  }

  /** The snapshot pass: make the snapshot (500 when every way failed),
      wait for it to open (500, leaving it behind, when it stays locked),
      and zip it with the uploads, deleting it afterwards and in the catch
      block. */
  function SnapshotExport(d: Disk, ds: string, uploads: string, useEngine: bool, tmp: string, env: ExportEnv): Step
    requires ds in d.files
  {
    var made := MakeTemp(d, ds, tmp, useEngine, env);
    var d2 := made.0;
    if !made.1 then Step(ServerError(NoSnapshotMessage), d2)
    else
      match ProbeOpen(env.tmpAttempts, DbRetries)
      case TimedOut => Step(ServerError(SnapshotLockedMessage(tmp)), d2)
      case Threw(_) => Step(ServerError(ExportFailedPrefix + env.cause), DeleteFile(d2, tmp))
      case Ready(_) =>
        match ZipWith(d2.files, d2.files[tmp], uploads, DirExists(d2, uploads), env.listing, env.snapshotFileAttempts)
        case None => Step(ServerError(ExportFailedPrefix + env.cause), DeleteFile(d2, tmp))
        case Some(a) => Step(ZipDownload(a, BackupZipName(env.zipStamp)), DeleteFile(d2, tmp))
  }

  /** The snapshot path of an Export. */
  function ExportTemp(h: Host, env: ExportEnv): string {
    SnapshotPath(h.tempDir, env.tmpStamp, env.guid)
  }

  /** Export: a missing database is 500; otherwise the direct pass, and
      the snapshot pass when it does not produce the archive. */
  function ExportRun(h: Host, cs: Option<string>, d: Disk, env: ExportEnv): Step {
    var ds := ExportDataSource(cs, h);
    if ds !in d.files then Step(ServerError(MissingDbMessage(ds)), d)
    else
      var uploads := BackupUploads(h);
      match DirectExport(d, ds, uploads, env)
      case Some(a) => Step(ZipDownload(a, BackupZipName(env.zipStamp)), d)
      case None => SnapshotExport(d, ds, uploads, UseEngine(cs), ExportTemp(h, env), env)
  }

  /** The four ways the snapshot pass ends: no snapshot, a snapshot that
      stays locked and is left behind, an exception after which it is
      deleted, and the archive, after which it is deleted too. */
  lemma SnapshotOutcome(d: Disk, ds: string, uploads: string, useEngine: bool, tmp: string, env: ExportEnv)
    requires ds in d.files
    ensures var st := SnapshotExport(d, ds, uploads, useEngine, tmp, env);
      var made := MakeTemp(d, ds, tmp, useEngine, env);
      (!made.1 && st == Step(ServerError(NoSnapshotMessage), made.0))
      || (made.1 && st == Step(ServerError(SnapshotLockedMessage(tmp)), made.0))
      || (made.1 && st == Step(ServerError(ExportFailedPrefix + env.cause), DeleteFile(made.0, tmp)))
      || (made.1 && st.response.ZipDownload? && st.disk == DeleteFile(made.0, tmp))
  {
  }

  /** Export's messages are told apart by their first characters. */
  lemma MessagesDiffer(ds: string, tmp: string, cause: string)
    ensures MissingDbMessage(ds) != NoSnapshotMessage
    ensures MissingDbMessage(ds)[0] == 'N' && NoSnapshotMessage[0] == 'N'
    ensures SnapshotLockedMessage(tmp)[0] == 'S' && (ExportFailedPrefix + cause)[0] == 'C'
  {
    assert MissingDbMessage(ds)[6] == 'n';
    assert NoSnapshotMessage[6] == 'v';
  }

  /** Export never answers 404: a missing database file is a 500 naming
      the path, and nothing is touched. */
  lemma ExportMissingDb(h: Host, cs: Option<string>, d: Disk, env: ExportEnv)
    ensures var r := ExportRun(h, cs, d, env);
      !r.response.NotFound?
      && (ExportDataSource(cs, h) !in d.files <==> r.response == ServerError(MissingDbMessage(ExportDataSource(cs, h))))
      && (ExportDataSource(cs, h) !in d.files ==> r.disk == d)
  {
    var ds := ExportDataSource(cs, h);
    var tmp := ExportTemp(h, env);
    MessagesDiffer(ds, tmp, env.cause);
    if ds in d.files && DirectExport(d, ds, BackupUploads(h), env).None? {
      SnapshotOutcome(d, ds, BackupUploads(h), UseEngine(cs), tmp, env);
    }
  }

  /** The snapshot pass runs only when the direct pass fails: a direct
      archive leaves the file system as it was and holds the live
      database. */
  lemma ExportDirectFirst(h: Host, cs: Option<string>, d: Disk, env: ExportEnv)
    ensures var r := ExportRun(h, cs, d, env);
      var ds := ExportDataSource(cs, h);
      (r.disk != d ==> ds in d.files && DirectExport(d, ds, BackupUploads(h), env).None?)
      && (ds in d.files && DirectExport(d, ds, BackupUploads(h), env).Some? ==>
            r.disk == d && r.response.ZipDownload? && r.response.archive[0] == Entry(DbEntryName, d.files[ds]))
      && (ds in d.files && !ProbeOpen(env.dbAttempts, DbRetries).Ready? ==> DirectExport(d, ds, BackupUploads(h), env).None?)
  {
  }

  /** Export changes no file but the snapshot, and no directory. */
  lemma ExportTouchesOnlySnapshot(h: Host, cs: Option<string>, d: Disk, env: ExportEnv, p: string)
    requires p != ExportTemp(h, env)
    ensures SameAt(ExportRun(h, cs, d, env).disk, d, p) && ExportRun(h, cs, d, env).disk.dirs == d.dirs
  {
    var ds := ExportDataSource(cs, h);
    if ds in d.files && DirectExport(d, ds, BackupUploads(h), env).None? {
      SnapshotOutcome(d, ds, BackupUploads(h), UseEngine(cs), ExportTemp(h, env), env);
    }
  }

  /** The 500 for a snapshot that could not be made comes exactly when
      the database exists, the direct pass failed, and neither
      BackupDatabase (tried only for a "data source" connection string)
      nor File.Copy (which refuses an existing tmp when BackupDatabase was
      not tried) produced it. */
  lemma ExportNoSnapshot(h: Host, cs: Option<string>, d: Disk, env: ExportEnv)
    ensures var r := ExportRun(h, cs, d, env);
      var ds := ExportDataSource(cs, h);
      var tmp := ExportTemp(h, env);
      r.response == ServerError(NoSnapshotMessage) <==>
        (ds in d.files && DirectExport(d, ds, BackupUploads(h), env).None?
         && !(UseEngine(cs) && env.engineOk)
         && !(env.copyOk && tmp != ds && (UseEngine(cs) || tmp !in d.files)))
  {
    var ds := ExportDataSource(cs, h);
    var tmp := ExportTemp(h, env);
    MessagesDiffer(ds, tmp, env.cause);
    if ds in d.files && DirectExport(d, ds, BackupUploads(h), env).None? {
      SnapshotOutcome(d, ds, BackupUploads(h), UseEngine(cs), tmp, env);
    }
  }

  /** What becomes of the snapshot: the archive served from it and the
      catch block delete it, while the 500 for a snapshot that stays
      locked leaves it behind. */
  lemma ExportSnapshotCleanup(h: Host, cs: Option<string>, d: Disk, env: ExportEnv)
    requires ExportTemp(h, env) !in d.files
    ensures var r := ExportRun(h, cs, d, env);
      var tmp := ExportTemp(h, env);
      (r.response.ZipDownload? ==> tmp !in r.disk.files)
      && (r.response == ServerError(ExportFailedPrefix + env.cause) ==> tmp !in r.disk.files)
      && (r.response == ServerError(SnapshotLockedMessage(tmp)) ==> tmp in r.disk.files)
  {
    var ds := ExportDataSource(cs, h);
    var tmp := ExportTemp(h, env);
    MessagesDiffer(ds, tmp, env.cause);
    if ds in d.files && DirectExport(d, ds, BackupUploads(h), env).None? {
      SnapshotOutcome(d, ds, BackupUploads(h), UseEngine(cs), tmp, env);
    }
  }

  /** The archive a pass built: database.db, then, when the uploads
      folder exists, one entry per listed file in listing order; an upload
      found locked on every attempt is kept as an empty entry. */
  predicate PassLayout(a: Archive, db: Bytes, files: map<string, Bytes>, uploads: string, present: bool,
                       listing: seq<string>, attempts: string -> seq<OpenResult>)
  {
    |a| >= 1 && a[0] == Entry(DbEntryName, db)
    && (!present ==> |a| == 1)
    && (present ==> (|a| == 1 + |listing|
         && forall i :: 0 <= i < |listing| ==>
              (a[i + 1].name == UploadEntryName(UploadRel(uploads, listing[i]))
               && (ProbeOpen(attempts(listing[i]), FileRetries).TimedOut? ==> a[i + 1].data == [])
               && (a[i + 1].data != [] ==> listing[i] in files && a[i + 1].data == files[listing[i]]))))
  }

  lemma ZipWithLayout(files: map<string, Bytes>, db: Bytes, uploads: string, present: bool, listing: seq<string>,
                      attempts: string -> seq<OpenResult>)
    requires ZipWith(files, db, uploads, present, listing, attempts).Some?
    ensures PassLayout(ZipWith(files, db, uploads, present, listing, attempts).value, db, files, uploads, present, listing, attempts)
  {
    var a := ZipWith(files, db, uploads, present, listing, attempts).value;
    if present {
      var p := ProbedUploads(files, uploads, listing, attempts).value;
      forall i | 0 <= i < |listing|
        ensures a[i + 1] == Entry(UploadEntryName(p[i].0), p[i].1)
      {
      }
    }
  }

  /** Every archive Export serves carries the database as it was, from
      the live file or from the snapshot, and the uploads in listing
      order, an upload locked throughout its pass as an empty entry; it is
      laid out by the direct pass exactly when the database opened. */
  lemma ExportArchive(h: Host, cs: Option<string>, d: Disk, env: ExportEnv)
    requires ExportTemp(h, env) != ExportDataSource(cs, h)
    requires ExportTemp(h, env) !in env.listing && !Under(ExportTemp(h, env), BackupUploads(h))
    ensures var r := ExportRun(h, cs, d, env);
      var ds := ExportDataSource(cs, h);
      var uploads := BackupUploads(h);
      r.response.ZipDownload? ==>
        ds in d.files && r.response.fileName == BackupZipName(env.zipStamp)
        && (DirectExport(d, ds, uploads, env).Some? ==>
              PassLayout(r.response.archive, d.files[ds], d.files, uploads, DirExists(d, uploads), env.listing, env.directFileAttempts))
        && (DirectExport(d, ds, uploads, env).None? ==>
              PassLayout(r.response.archive, d.files[ds], d.files, uploads, DirExists(d, uploads), env.listing, env.snapshotFileAttempts))
  {
    var r := ExportRun(h, cs, d, env);
    var ds := ExportDataSource(cs, h);
    var uploads := BackupUploads(h);
    var tmp := ExportTemp(h, env);
    if r.response.ZipDownload? {
      if DirectExport(d, ds, uploads, env).Some? {
        ZipWithLayout(d.files, d.files[ds], uploads, DirExists(d, uploads), env.listing, env.directFileAttempts);
      } else {
        var d2 := MakeTemp(d, ds, tmp, UseEngine(cs), env).0;
        assert DirExists(d2, uploads) == DirExists(d, uploads) by {
          DirExistsBeside(d2, d, tmp, uploads);
        }
        ZipWithLayout(d2.files, d2.files[tmp], uploads, DirExists(d2, uploads), env.listing, env.snapshotFileAttempts);
        forall i | 0 <= i < |env.listing| ensures SameAt(d2, d, env.listing[i]) {
        }
        SameFilesLayout(r.response.archive, d.files[ds], d2.files, d.files, uploads, DirExists(d, uploads), env.listing, env.snapshotFileAttempts);
      }
    }
  }

  /** A pass's layout depends only on the listed files. */
  lemma SameFilesLayout(a: Archive, db: Bytes, f1: map<string, Bytes>, f2: map<string, Bytes>, uploads: string, present: bool,
                        listing: seq<string>, attempts: string -> seq<OpenResult>)
    requires PassLayout(a, db, f1, uploads, present, listing, attempts)
    requires forall i :: 0 <= i < |listing| ==>
      ((listing[i] in f1 <==> listing[i] in f2) && (listing[i] in f1 ==> f1[listing[i]] == f2[listing[i]]))
    ensures PassLayout(a, db, f2, uploads, present, listing, attempts)
  {
  }

  /** Writing or deleting one file changes whether a folder exists only
      when the folder has nothing else in it. */
  lemma DirExistsBeside(a: Disk, b: Disk, tmp: string, dir: string)
    requires a.dirs == b.dirs
    requires forall p :: p != tmp ==> SameAt(a, b, p)
    requires !Under(tmp, dir)
    ensures DirExists(a, dir) == DirExists(b, dir)
  {
    if exists f :: f in a.files && Under(f, dir) {
      var f :| f in a.files && Under(f, dir);
      assert SameAt(a, b, f);
    }
    if exists f :: f in b.files && Under(f, dir) {
      var f :| f in b.files && Under(f, dir);
      assert SameAt(a, b, f);
    }
  }

  /** The archives of both passes are extracted whole by a restore, and
      only their first entry writes database.db: the database they carry
      is what the restore copies. */
  lemma ExportArchiveExtracts(h: Host, cs: Option<string>, d: Disk, env: ExportEnv, dir: string)
    requires ExportTemp(h, env) != ExportDataSource(cs, h)
    requires ExportTemp(h, env) !in env.listing && !Under(ExportTemp(h, env), BackupUploads(h))
    requires forall i :: 0 <= i < |env.listing| ==> PlainRelative(UploadRel(BackupUploads(h), env.listing[i]))
    requires ExportRun(h, cs, d, env).response.ZipDownload?
    requires dir != "" && !EndsWithSep(dir)
    ensures var a := ExportRun(h, cs, d, env).response.archive;
      NoneRefused(a) && ExportDataSource(cs, h) in d.files
      && LastWrite(a, dir, Combine(dir, DbEntryName)) == Some(d.files[ExportDataSource(cs, h)])
  {
    var a := ExportRun(h, cs, d, env).response.archive;
    var ds := ExportDataSource(cs, h);
    var uploads := BackupUploads(h);
    ExportArchive(h, cs, d, env);
    var present := DirExists(d, uploads);
    var attempts := if DirectExport(d, ds, uploads, env).Some? then env.directFileAttempts else env.snapshotFileAttempts;
    assert PassLayout(a, d.files[ds], d.files, uploads, present, env.listing, attempts);
    var p := LayoutPairs(a, d.files[ds], d.files, uploads, present, env.listing, attempts);
    LayoutAccepted(d.files[ds], p);
    DbWrittenOnce(dir, d.files[ds], p);
  }

  /** A pass's layout read back as relative paths and contents. */
  lemma LayoutPairs(a: Archive, db: Bytes, files: map<string, Bytes>, uploads: string, present: bool,
                    listing: seq<string>, attempts: string -> seq<OpenResult>)
    returns (p: seq<(string, Bytes)>)
    requires PassLayout(a, db, files, uploads, present, listing, attempts)
    requires forall i :: 0 <= i < |listing| ==> PlainRelative(UploadRel(uploads, listing[i]))
    ensures a == BackupLayout(db, p)
    ensures forall i :: 0 <= i < |p| ==> PlainRelative(p[i].0)
  {
    if present {
      p := PresentPairs(a, db, files, uploads, listing, attempts);
    } else {
      p := [];
      DbOnlyLayout(a, db);
    }
  }

  /** Without an uploads folder the archive holds the database alone. */
  lemma DbOnlyLayout(a: Archive, db: Bytes)
    requires |a| == 1 && a[0] == Entry(DbEntryName, db)
    ensures a == BackupLayout(db, [])
  {
    SameEntries(a, BackupLayout(db, []));
  }

  /** Each upload entry's relative path and contents, in entry order. */
  function EntryPairs(a: Archive, uploads: string, listing: seq<string>): (p: seq<(string, Bytes)>)
    requires |a| == 1 + |listing|
    ensures |p| == |listing|
    ensures forall i :: 0 <= i < |listing| ==> p[i] == (UploadRel(uploads, listing[i]), a[i + 1].data)
  {
    seq(|listing|, i requires 0 <= i < |listing| => (UploadRel(uploads, listing[i]), a[i + 1].data))
  }

  /** With an uploads folder, entry i + 1 carries listing[i]'s relative
      path. */
  lemma PresentPairs(a: Archive, db: Bytes, files: map<string, Bytes>, uploads: string,
                     listing: seq<string>, attempts: string -> seq<OpenResult>)
    returns (p: seq<(string, Bytes)>)
    requires PassLayout(a, db, files, uploads, true, listing, attempts)
    requires forall i :: 0 <= i < |listing| ==> PlainRelative(UploadRel(uploads, listing[i]))
    ensures a == BackupLayout(db, p)
    ensures forall i :: 0 <= i < |p| ==> PlainRelative(p[i].0)
  {
    p := EntryPairs(a, uploads, listing);
    var l := BackupLayout(db, p);
    forall k | 1 <= k < |a| ensures a[k] == l[k] {
      PairAt(a, db, files, uploads, listing, attempts, k);
    }
    SameEntries(a, l);
  }

  lemma PairAt(a: Archive, db: Bytes, files: map<string, Bytes>, uploads: string,
               listing: seq<string>, attempts: string -> seq<OpenResult>, k: nat)
    requires PassLayout(a, db, files, uploads, true, listing, attempts)
    requires 1 <= k < |a|
    ensures a[k] == BackupLayout(db, EntryPairs(a, uploads, listing))[k]
  {
    var p := EntryPairs(a, uploads, listing);
    var i := k - 1;
    assert a[i + 1].name == UploadEntryName(UploadRel(uploads, listing[i]));
    assert p[i] == (UploadRel(uploads, listing[i]), a[i + 1].data);
  }


  // -------------------------------------------------------------- Restore

  /** The inputs of one Restore: the GUID of the temporary folder,
      whether creating it, saving the upload, closing the connection and
      File.Copy over the database succeed, how the uploads replacement
      ends, the listings of the extracted uploads folder, whether deleting the
      temporary folder succeeds, and the message of a failure. */
  datatype ImportEnv = ImportEnv(
    guid: string,
    createOk: bool, saveOk: bool, closeOk: bool, copyOk: bool, uploads: UploadsOutcome,
    dirListing: seq<string>, listing: seq<string>,
    cleanupOk: bool, cause: string)

  const NoUploadMessage: string := "Soubor nebyl nahrán."
  const NoDatabaseMessage: string := "V ZIPu nebyl nalezen soubor database.db."
  const RestoredMessage: string := "Obnova úspěšná."
  const RestoreFailedPrefix: string := "Chyba při obnově: "

  /** Path.Combine(ContentRootPath ?? current directory, "photoapp.db"):
      Restore overwrites this file whatever database Export read. */
  function RestoreDbPath(h: Host): string {
    Combine(RootOrCwd(h), DefaultDbFile)
  }

  /** The uploads step: the live uploads folder is replaced when the
      archive brought one; a replacement that throws part-way is the 500
      of the catch block, and what it had done so far stays done. */
  function ReplaceStep(d: Disk, tmp: string, uploads: string, env: ImportEnv): Step {
    var source := Combine(tmp, "uploads");
    if !DirExists(d, source) then Step(OkMessage(RestoredMessage), d)
    else
      var r := UploadsAfter(d, source, uploads, env.dirListing, env.listing, env.uploads);
      if env.uploads.Replaced? then Step(OkMessage(RestoredMessage), r)
      else Step(ServerError(RestoreFailedPrefix + env.cause), r)
  }

  /** The try block: save the upload as backup.zip, extract it (an
      archive that is not a ZIP or has a refused name throws), copy
      database.db over the database (400 when it is missing), then the
      uploads; every exception is a 500 with its message. */
  function ImportSteps(h: Host, d: Disk, tmp: string, uploads: string, u: Upload, env: ImportEnv): Step {
    if !env.saveOk then Step(ServerError(RestoreFailedPrefix + env.cause), d)
    else
      var d1 := WriteFile(d, Combine(tmp, "backup.zip"), u.bytes);
      match u.archive
      case None => Step(ServerError(RestoreFailedPrefix + env.cause), d1)
      case Some(a) =>
        match ExtractAll(d1, tmp, a)
        case ExtractFailed(d2) => Step(ServerError(RestoreFailedPrefix + env.cause), d2)
        case Extracted(d2) =>
          var backupDb := Combine(tmp, DbEntryName);
          if backupDb !in d2.files then Step(BadRequest(NoDatabaseMessage), d2)
          else if !env.closeOk || !env.copyOk then Step(ServerError(RestoreFailedPrefix + env.cause), d2)
          else ReplaceStep(WriteFile(d2, RestoreDbPath(h), d2.files[backupDb]), tmp, uploads, env)
  }

  /** Restore: no upload or an empty one is 400; the temporary folder is
      created and the uploads folder computed outside the try block, so a
      failure to create it, or a host without a web root, escapes; the
      finally block deletes the folder, ignoring a failure. */
  function RestoreRun(h: Host, d: Disk, upload: Option<Upload>, env: ImportEnv): Step {
    if upload.None? || |upload.value.bytes| == 0 then Step(BadRequest(NoUploadMessage), d)
    else
      var tmp := ImportFolder(h.tempDir, env.guid);
      if !env.createOk then Step(Unhandled, d)
      else if h.webRoot.None? then Step(Unhandled, MakeDir(d, tmp))
      else
        var st := ImportSteps(h, MakeDir(d, tmp), tmp, Combine(h.webRoot.value, "uploads"), upload.value, env);
        Step(st.response, RemoveTemp(st.disk, tmp, env.cleanupOk))
  }

  /** Without an upload, or with an empty one, Restore is 400 and
      touches nothing. */
  lemma RestoreRefusesEmpty(h: Host, d: Disk, upload: Option<Upload>, env: ImportEnv)
    ensures var r := RestoreRun(h, d, upload, env);
      (upload.None? || |upload.value.bytes| == 0) <==> r.response == BadRequest(NoUploadMessage)
    ensures upload.None? || |upload.value.bytes| == 0 ==> RestoreRun(h, d, upload, env).disk == d
  {
    assert NoUploadMessage[0] != NoDatabaseMessage[0];
  }

  /** A host without a web root makes Restore throw before its try block:
      the temporary folder it has just created is never deleted. */
  lemma RestoreWithoutWebRoot(h: Host, d: Disk, upload: Option<Upload>, env: ImportEnv)
    requires upload.Some? && |upload.value.bytes| > 0 && env.createOk && h.webRoot.None?
    ensures var r := RestoreRun(h, d, upload, env);
      r.response == Unhandled && r.disk == MakeDir(d, ImportFolder(h.tempDir, env.guid))
      && DirExists(r.disk, ImportFolder(h.tempDir, env.guid))
  {
  }

  /** Once the try block ran and the deletion succeeds, nothing is left
      inside the temporary folder, whatever the outcome. */
  lemma RestoreRemovesTemp(h: Host, d: Disk, upload: Option<Upload>, env: ImportEnv)
    requires h.webRoot.Some? && env.createOk && env.cleanupOk
    ensures var r := RestoreRun(h, d, upload, env);
      upload.Some? && |upload.value.bytes| > 0 ==>
        forall f :: f in r.disk.files ==> !Under(f, ImportFolder(h.tempDir, env.guid))
  {
  }

  /** Paths that do not overlap: the database lies outside the temporary
      folder and outside the uploads folder, and the temporary folder
      is new. */
  predicate RestoreApart(h: Host, d: Disk, env: ImportEnv) {
    var tmp := ImportFolder(h.tempDir, env.guid);
    h.webRoot.Some? && tmp != "" && !EndsWithSep(tmp)
    && !Under(RestoreDbPath(h), tmp) && !Under(RestoreDbPath(h), Combine(h.webRoot.value, "uploads"))
    && (forall f :: f in d.files ==> !Under(f, tmp))
    && CleanListing(Combine(tmp, "uploads"), env.listing)
  }

  /** The extracted disk of a restore whose archive extracts whole. */
  lemma Extracted(h: Host, d: Disk, u: Upload, env: ImportEnv)
    requires RestoreApart(h, d, env) && u.archive.Some? && NoneRefused(u.archive.value)
    ensures var tmp := ImportFolder(h.tempDir, env.guid);
      var d1 := WriteFile(MakeDir(d, tmp), Combine(tmp, "backup.zip"), u.bytes);
      var key := Combine(tmp, DbEntryName);
      var e := ExtractAll(d1, tmp, u.archive.value);
      e.Extracted?
      && SameAt(e.disk, d, RestoreDbPath(h))
      && (key in e.disk.files <==> LastWrite(u.archive.value, tmp, key).Some?)
      && (key in e.disk.files ==> e.disk.files[key] == LastWrite(u.archive.value, tmp, key).value)
  {
    var tmp := ImportFolder(h.tempDir, env.guid);
    var a := u.archive.value;
    var d1 := WriteFile(MakeDir(d, tmp), Combine(tmp, "backup.zip"), u.bytes);
    ExtractCompletes(d1, tmp, a);
    CombineUnder(tmp, "backup.zip");
    DbKeyInTemp(d1, tmp, a);
    ExtractStaysInside(d1, tmp, a);
  }

  /** The conditions under which Restore copies the archive's
      database.db over the database: a non-empty upload, the temporary
      folder created, the upload saved, an archive that extracts whole
      with a database.db at its root, and the connection closed and the
      copy done. */
  predicate CopiesDb(h: Host, upload: Option<Upload>, env: ImportEnv) {
    var tmp := ImportFolder(h.tempDir, env.guid);
    upload.Some? && |upload.value.bytes| > 0 && env.createOk && env.saveOk && env.closeOk && env.copyOk
    && upload.value.archive.Some? && NoneRefused(upload.value.archive.value)
    && LastWrite(upload.value.archive.value, tmp, Combine(tmp, DbEntryName)).Some?
  }

  /** There is no integrity check: an "Obnova úspěšná." answer means the
      database at content root\photoapp.db now holds the archive's
      database.db, whatever it contains. */
  lemma RestoreSucceedsOnlyIf(h: Host, d: Disk, upload: Option<Upload>, env: ImportEnv)
    requires RestoreApart(h, d, env)
    ensures var r := RestoreRun(h, d, upload, env);
      var tmp := ImportFolder(h.tempDir, env.guid);
      r.response == OkMessage(RestoredMessage) ==>
        CopiesDb(h, upload, env)
        && RestoreDbPath(h) in r.disk.files
        && r.disk.files[RestoreDbPath(h)] == LastWrite(upload.value.archive.value, tmp, Combine(tmp, DbEntryName)).value
  {
    var tmp := ImportFolder(h.tempDir, env.guid);
    if upload.Some? && |upload.value.bytes| > 0 && env.createOk && env.saveOk && upload.value.archive.Some? {
      var a := upload.value.archive.value;
      var d1 := WriteFile(MakeDir(d, tmp), Combine(tmp, "backup.zip"), upload.value.bytes);
      ExtractCompletes(d1, tmp, a);
      if NoneRefused(a) {
        Extracted(h, d, upload.value, env);
        if CopiesDb(h, upload, env) {
          CopiedDb(h, d, upload.value, env);
        }
      }
    }
  }

  /** Conversely, when the database is copied and the uploads step goes
      through, Restore answers "Obnova úspěšná.". */
  lemma RestoreSucceedsIf(h: Host, d: Disk, upload: Option<Upload>, env: ImportEnv)
    requires RestoreApart(h, d, env) && CopiesDb(h, upload, env) && env.uploads.Replaced?
    ensures RestoreRun(h, d, upload, env).response == OkMessage(RestoredMessage)
  {
    Extracted(h, d, upload.value, env);
  }

  /** When the uploads replacement throws part-way, the database has
      already been overwritten with the archive's database.db and stays so,
      yet the answer is the 500 of the catch block (or the success message
      when the archive brought no uploads folder, so the replacement never
      ran). */
  lemma UploadsFailureAfterDbCopy(h: Host, d: Disk, upload: Option<Upload>, env: ImportEnv)
    requires RestoreApart(h, d, env) && CopiesDb(h, upload, env) && !env.uploads.Replaced?
    ensures var r := RestoreRun(h, d, upload, env);
      var tmp := ImportFolder(h.tempDir, env.guid);
      (r.response == OkMessage(RestoredMessage) || r.response == ServerError(RestoreFailedPrefix + env.cause))
      && RestoreDbPath(h) in r.disk.files
      && r.disk.files[RestoreDbPath(h)] == LastWrite(upload.value.archive.value, tmp, Combine(tmp, DbEntryName)).value
  {
    Extracted(h, d, upload.value, env);
    CopiedDb(h, d, upload.value, env);
  }

  /** After database.db has been copied over the database, the uploads
      step and the cleanup leave it there. */
  lemma CopiedDb(h: Host, d: Disk, u: Upload, env: ImportEnv)
    requires RestoreApart(h, d, env) && u.archive.Some? && NoneRefused(u.archive.value)
    requires env.closeOk && env.copyOk && env.saveOk
    requires LastWrite(u.archive.value, ImportFolder(h.tempDir, env.guid), Combine(ImportFolder(h.tempDir, env.guid), DbEntryName)).Some?
    ensures var tmp := ImportFolder(h.tempDir, env.guid);
      var st := ImportSteps(h, MakeDir(d, tmp), tmp, Combine(h.webRoot.value, "uploads"), u, env);
      var b := LastWrite(u.archive.value, tmp, Combine(tmp, DbEntryName)).value;
      RestoreDbPath(h) in st.disk.files && st.disk.files[RestoreDbPath(h)] == b
      && SameAt(RemoveTemp(st.disk, tmp, env.cleanupOk), st.disk, RestoreDbPath(h))
  {
    var tmp := ImportFolder(h.tempDir, env.guid);
    var key := Combine(tmp, DbEntryName);
    Extracted(h, d, u, env);
    var d1 := WriteFile(MakeDir(d, tmp), Combine(tmp, "backup.zip"), u.bytes);
    var d2 := ExtractAll(d1, tmp, u.archive.value).disk;
    var d3 := WriteFile(d2, RestoreDbPath(h), d2.files[key]);
    var source := Combine(tmp, "uploads");
    if DirExists(d3, source) {
      UploadsAfterFrame(d3, source, Combine(h.webRoot.value, "uploads"), env.dirListing, env.listing, env.uploads, RestoreDbPath(h));
    }
  }

  /** The database changes only by the copy of database.db: every
      restore either leaves it as it was or leaves it holding the
      archive's database.db, and the latter happens also when the uploads
      step fails afterwards and the answer is a 500. A 400 never touches
      it. */
  lemma RestoreDbChangedOnlyByCopy(h: Host, d: Disk, upload: Option<Upload>, env: ImportEnv)
    requires RestoreApart(h, d, env)
    ensures var r := RestoreRun(h, d, upload, env);
      var tmp := ImportFolder(h.tempDir, env.guid);
      var key := Combine(tmp, DbEntryName);
      SameAt(r.disk, d, RestoreDbPath(h))
      || (upload.Some? && upload.value.archive.Some? && env.closeOk && env.copyOk
          && LastWrite(upload.value.archive.value, tmp, key).Some?
          && RestoreDbPath(h) in r.disk.files
          && r.disk.files[RestoreDbPath(h)] == LastWrite(upload.value.archive.value, tmp, key).value
          && (r.response == OkMessage(RestoredMessage) || r.response == ServerError(RestoreFailedPrefix + env.cause)))
    ensures RestoreRun(h, d, upload, env).response.BadRequest? ==> SameAt(RestoreRun(h, d, upload, env).disk, d, RestoreDbPath(h))
  {
    if upload.Some? && |upload.value.bytes| > 0 && env.createOk {
      StepsDb(h, d, upload.value, env);
    }
  }

  /** The answer and disk after the archive's database.db was copied. */
  predicate DbCopied(st: Step, h: Host, u: Upload, env: ImportEnv) {
    var tmp := ImportFolder(h.tempDir, env.guid);
    var key := Combine(tmp, DbEntryName);
    u.archive.Some? && env.closeOk && env.copyOk
    && LastWrite(u.archive.value, tmp, key).Some?
    && RestoreDbPath(h) in st.disk.files
    && st.disk.files[RestoreDbPath(h)] == LastWrite(u.archive.value, tmp, key).value
    && (st.response == OkMessage(RestoredMessage) || st.response == ServerError(RestoreFailedPrefix + env.cause))
  }

  /** The try block of Restore leaves the database, or ends with the
      copy of database.db in it; a 400 leaves it. */
  lemma StepsDb(h: Host, d: Disk, u: Upload, env: ImportEnv)
    requires RestoreApart(h, d, env)
    ensures var tmp := ImportFolder(h.tempDir, env.guid);
      var st := ImportSteps(h, MakeDir(d, tmp), tmp, Combine(h.webRoot.value, "uploads"), u, env);
      var r := Step(st.response, RemoveTemp(st.disk, tmp, env.cleanupOk));
      (SameAt(r.disk, d, RestoreDbPath(h)) || DbCopied(r, h, u, env))
      && (r.response.BadRequest? ==> SameAt(r.disk, d, RestoreDbPath(h)))
  {
    var tmp := ImportFolder(h.tempDir, env.guid);
    if env.saveOk && u.archive.Some? {
      var a := u.archive.value;
      var d1 := WriteFile(MakeDir(d, tmp), Combine(tmp, "backup.zip"), u.bytes);
      SaveFrame(tmp, MakeDir(d, tmp), u.bytes, RestoreDbPath(h));
      ExtractStaysInside(d1, tmp, a);
      if NoneRefused(a) {
        Extracted(h, d, u, env);
        if LastWrite(a, tmp, Combine(tmp, DbEntryName)).Some? && env.closeOk && env.copyOk {
          CopiedDb(h, d, u, env);
          var d2 := ExtractAll(d1, tmp, a).disk;
          ReplaceStepAnswers(WriteFile(d2, RestoreDbPath(h), d2.files[Combine(tmp, DbEntryName)]), tmp, Combine(h.webRoot.value, "uploads"), env);
        }
      } else {
        ExtractCompletes(d1, tmp, a);
      }
    }
  }

  /** The uploads step answers "Obnova úspěšná." or the 500. */
  lemma ReplaceStepAnswers(d: Disk, tmp: string, uploads: string, env: ImportEnv)
    ensures var r := ReplaceStep(d, tmp, uploads, env).response;
      r == OkMessage(RestoredMessage) || r == ServerError(RestoreFailedPrefix + env.cause)
  { }

  /** Saving backup.zip into the temporary folder leaves every path
      outside it. */
  lemma SaveFrame(tmp: string, d: Disk, bytes: Bytes, p: string)
    requires tmp != "" && !EndsWithSep(tmp) && !Under(p, tmp)
    ensures SameAt(WriteFile(d, Combine(tmp, "backup.zip"), bytes), d, p)
  {
    DbKeyNotZip(tmp);
  }

  /** The uploads step changes nothing outside the uploads folder. */
  lemma ReplaceStepFrame(d: Disk, tmp: string, uploads: string, env: ImportEnv, p: string)
    requires tmp != "" && CleanListing(Combine(tmp, "uploads"), env.listing) && !Under(p, uploads)
    ensures SameAt(ReplaceStep(d, tmp, uploads, env).disk, d, p)
  {
    var source := Combine(tmp, "uploads");
    if DirExists(d, source) {
      UploadsAfterFrame(d, source, uploads, env.dirListing, env.listing, env.uploads, p);
    }
  }

  /** A restore changes nothing outside the temporary folder, the
      uploads folder and the database file. */
  lemma RestoreFrame(h: Host, d: Disk, upload: Option<Upload>, env: ImportEnv, p: string)
    requires RestoreApart(h, d, env)
    requires p != RestoreDbPath(h) && !Under(p, ImportFolder(h.tempDir, env.guid))
    requires !Under(p, Combine(h.webRoot.value, "uploads"))
    ensures SameAt(RestoreRun(h, d, upload, env).disk, d, p)
  {
    var tmp := ImportFolder(h.tempDir, env.guid);
    if upload.Some? && |upload.value.bytes| > 0 && env.createOk {
      ImportStepsFrame(h, MakeDir(d, tmp), tmp, Combine(h.webRoot.value, "uploads"), upload.value, env, p);
    }
  }

  /** The try block changes nothing outside the temporary folder, the
      uploads folder and the database file. */
  lemma ImportStepsFrame(h: Host, d0: Disk, tmp: string, uploads: string, u: Upload, env: ImportEnv, p: string)
    requires tmp != "" && !EndsWithSep(tmp) && CleanListing(Combine(tmp, "uploads"), env.listing)
    requires p != RestoreDbPath(h) && !Under(p, tmp) && !Under(p, uploads)
    ensures SameAt(ImportSteps(h, d0, tmp, uploads, u, env).disk, d0, p)
  {
    if env.saveOk && u.archive.Some? {
      var a := u.archive.value;
      var d1 := WriteFile(d0, Combine(tmp, "backup.zip"), u.bytes);
      SaveFrame(tmp, d0, u.bytes, p);
      ExtractStaysInside(d1, tmp, a);
      match ExtractAll(d1, tmp, a)
      case ExtractFailed(_) =>
      case Extracted(d2) =>
        var key := Combine(tmp, DbEntryName);
        if key in d2.files && env.closeOk && env.copyOk {
          ReplaceStepFrame(WriteFile(d2, RestoreDbPath(h), d2.files[key]), tmp, uploads, env, p);
        }
    }
  }

  /** The disk once a restore has extracted its archive into the
      temporary folder. */
  function RestoreExtraction(h: Host, d: Disk, u: Upload, env: ImportEnv): Disk
    requires u.archive.Some?
  {
    var tmp := ImportFolder(h.tempDir, env.guid);
    ExtractAll(WriteFile(MakeDir(d, tmp), Combine(tmp, "backup.zip"), u.bytes), tmp, u.archive.value).disk
  }

  /** The temporary folder and the live uploads folder do not overlap. */
  predicate UploadsApart(h: Host, env: ImportEnv) {
    h.webRoot.Some? && Apart(ImportFolder(h.tempDir, env.guid), Combine(h.webRoot.value, "uploads"))
  }

  /** The database file lies outside the extracted uploads folder. */
  lemma DbOutsideSource(h: Host, env: ImportEnv)
    requires RestoreApart(h, Disk(map[], {}), env) && UploadsApart(h, env)
    ensures var tmp := ImportFolder(h.tempDir, env.guid);
      Under(Combine(tmp, "uploads"), tmp) && Apart(Combine(tmp, "uploads"), Combine(h.webRoot.value, "uploads"))
      && !Under(RestoreDbPath(h), Combine(tmp, "uploads"))
  {
    var tmp := ImportFolder(h.tempDir, env.guid);
    ExtractedUploadsApart(tmp, Combine(h.webRoot.value, "uploads"));
    if Under(RestoreDbPath(h), Combine(tmp, "uploads")) {
      UnderNested(RestoreDbPath(h), Combine(tmp, "uploads"), tmp);
    }
  }

  /** When the database is copied, the archive brought an uploads folder
      and the replacement goes through, the answer is "Obnova úspěšná."
      and the live uploads folder holds exactly the extracted uploads, at
      the same relative paths with the same contents: the old uploads are
      gone. */
  lemma RestoreReplacesUploads(h: Host, d: Disk, u: Upload, env: ImportEnv)
    requires RestoreApart(h, d, env) && UploadsApart(h, env)
    requires CopiesDb(h, Some(u), env) && env.uploads.Replaced?
    requires IsListing(RestoreExtraction(h, d, u, env).files, Combine(ImportFolder(h.tempDir, env.guid), "uploads"), env.listing)
    ensures var r := RestoreRun(h, d, Some(u), env);
      var source := Combine(ImportFolder(h.tempDir, env.guid), "uploads");
      r.response == OkMessage(RestoredMessage)
      && (DirExists(RestoreExtraction(h, d, u, env), source) ==>
            Mirrors(r.disk, Combine(h.webRoot.value, "uploads"), RestoreExtraction(h, d, u, env), source))
  {
    var tmp := ImportFolder(h.tempDir, env.guid);
    var source := Combine(tmp, "uploads");
    var target := Combine(h.webRoot.value, "uploads");
    Extracted(h, d, u, env);
    RestoreSucceedsIf(h, d, Some(u), env);
    DbOutsideSource(h, env);
    var e := RestoreExtraction(h, d, u, env);
    var key := Combine(tmp, DbEntryName);
    var st := ImportSteps(h, MakeDir(d, tmp), tmp, target, u, env);
    StepsReachUploads(h, MakeDir(d, tmp), tmp, target, u, env);
    if DirExists(e, source) {
      ReplaceStepMirrors(e, RestoreDbPath(h), e.files[key], tmp, target, env);
      MirrorsAfterCleanup(st.disk, tmp, target, e, source, env.cleanupOk);
    }
  }

  /** A try block that extracts the archive and copies its database.db
      ends with the uploads step. */
  lemma StepsReachUploads(h: Host, d0: Disk, tmp: string, uploads: string, u: Upload, env: ImportEnv)
    requires env.saveOk && env.closeOk && env.copyOk && u.archive.Some?
    requires ExtractAll(WriteFile(d0, Combine(tmp, "backup.zip"), u.bytes), tmp, u.archive.value).Extracted?
    requires Combine(tmp, DbEntryName) in ExtractAll(WriteFile(d0, Combine(tmp, "backup.zip"), u.bytes), tmp, u.archive.value).disk.files
    ensures var e := ExtractAll(WriteFile(d0, Combine(tmp, "backup.zip"), u.bytes), tmp, u.archive.value).disk;
      ImportSteps(h, d0, tmp, uploads, u, env) == ReplaceStep(WriteFile(e, RestoreDbPath(h), e.files[Combine(tmp, DbEntryName)]), tmp, uploads, env)
  { }

  /** The uploads step after the database copy, when the extracted
      uploads folder exists and the replacement goes through, leaves the
      live folder mirroring the extracted one. */
  lemma ReplaceStepMirrors(e: Disk, db: string, b: Bytes, tmp: string, target: string, env: ImportEnv)
    requires tmp != "" && Apart(Combine(tmp, "uploads"), target) && !Under(db, Combine(tmp, "uploads"))
    requires IsListing(e.files, Combine(tmp, "uploads"), env.listing) && CleanListing(Combine(tmp, "uploads"), env.listing)
    requires DirExists(e, Combine(tmp, "uploads")) && env.uploads.Replaced?
    ensures Mirrors(ReplaceStep(WriteFile(e, db, b), tmp, target, env).disk, target, e, Combine(tmp, "uploads"))
  {
    var source := Combine(tmp, "uploads");
    var d3 := WriteFile(e, db, b);
    DirExistsWrite(e, db, b, source);
    forall f | Under(f, source) ensures SameAt(e, d3, f) { }
    assert IsListing(d3.files, source, env.listing);
    ReplaceUploadsMirrors(d3, source, target, env.dirListing, env.listing);
    var r := ReplaceUploads(d3, source, target, env.dirListing, env.listing);
    forall p | Under(p, target) ensures SameAt(r, r, p) { }
    MirrorsAcross(r, r, target, d3, e, source);
  }

  /** Conversely, the live uploads folder changes only when the
      database was copied and the extracted archive has an uploads
      folder: a restore whose archive brought none, or that stopped
      before the copy, leaves every file inside the live folder. */
  lemma RestoreKeepsUploads(h: Host, d: Disk, upload: Option<Upload>, env: ImportEnv, p: string)
    requires RestoreApart(h, d, env) && UploadsApart(h, env)
    requires Under(p, Combine(h.webRoot.value, "uploads"))
    ensures !SameAt(RestoreRun(h, d, upload, env).disk, d, p) ==>
      CopiesDb(h, upload, env)
      && DirExists(RestoreExtraction(h, d, upload.value, env), Combine(ImportFolder(h.tempDir, env.guid), "uploads"))
  {
    var tmp := ImportFolder(h.tempDir, env.guid);
    var target := Combine(h.webRoot.value, "uploads");
    ApartTrees(tmp, target, p);
    DbOutsideSource(h, env);
    if upload.Some? && |upload.value.bytes| > 0 && env.createOk {
      var u := upload.value;
      var st := ImportSteps(h, MakeDir(d, tmp), tmp, target, u, env);
      assert RestoreRun(h, d, upload, env).disk == RemoveTemp(st.disk, tmp, env.cleanupOk);
      assert SameAt(MakeDir(d, tmp), d, p);
      StepsKeepUploads(h, MakeDir(d, tmp), tmp, target, u, env, p);
      if !SameAt(st.disk, MakeDir(d, tmp), p) {
        var d1 := WriteFile(MakeDir(d, tmp), Combine(tmp, "backup.zip"), u.bytes);
        ExtractCompletes(d1, tmp, u.archive.value);
        Extracted(h, d, u, env);
        assert CopiesDb(h, upload, env);
      }
    }
  }

  /** The try block changes a path other than the database file and
      outside the temporary folder only past the database copy, and only
      when the extracted archive has an uploads folder. */
  lemma StepsKeepUploads(h: Host, d0: Disk, tmp: string, uploads: string, u: Upload, env: ImportEnv, p: string)
    requires tmp != "" && !EndsWithSep(tmp) && !Under(p, tmp) && p != RestoreDbPath(h)
    requires !Under(RestoreDbPath(h), Combine(tmp, "uploads"))
    ensures !SameAt(ImportSteps(h, d0, tmp, uploads, u, env).disk, d0, p) ==>
      env.saveOk && env.closeOk && env.copyOk && u.archive.Some?
      && var x := ExtractAll(WriteFile(d0, Combine(tmp, "backup.zip"), u.bytes), tmp, u.archive.value);
      x.Extracted? && Combine(tmp, DbEntryName) in x.disk.files && DirExists(x.disk, Combine(tmp, "uploads"))
  {
    if env.saveOk && u.archive.Some? {
      var a := u.archive.value;
      var d1 := WriteFile(d0, Combine(tmp, "backup.zip"), u.bytes);
      SaveFrame(tmp, d0, u.bytes, p);
      ExtractStaysInside(d1, tmp, a);
      match ExtractAll(d1, tmp, a)
      case ExtractFailed(_) =>
      case Extracted(d2) =>
        var key := Combine(tmp, DbEntryName);
        if key in d2.files && env.closeOk && env.copyOk {
          DirExistsWrite(d2, RestoreDbPath(h), d2.files[key], Combine(tmp, "uploads"));
        }
    }
  }

  /** Restoring an archive Export served brings the database back to
      what it held when the backup was taken, provided Export read the
      same file Restore writes. */
  lemma ExportRestoreRoundTrip(h: Host, cs: Option<string>, d: Disk, eenv: ExportEnv,
                               later: Disk, bytes: Bytes, env: ImportEnv)
    requires ExportTemp(h, eenv) != ExportDataSource(cs, h) && ExportTemp(h, eenv) !in eenv.listing
    requires !Under(ExportTemp(h, eenv), BackupUploads(h))
    requires forall i :: 0 <= i < |eenv.listing| ==> PlainRelative(UploadRel(BackupUploads(h), eenv.listing[i]))
    requires ExportRun(h, cs, d, eenv).response.ZipDownload?
    requires ExportDataSource(cs, h) == RestoreDbPath(h)
    requires |bytes| > 0 && env.createOk && env.saveOk && env.closeOk && env.copyOk && env.uploads.Replaced?
    requires RestoreApart(h, later, env)
    ensures var a := ExportRun(h, cs, d, eenv).response.archive;
      var r := RestoreRun(h, later, Some(Upload(bytes, Some(a))), env);
      r.response == OkMessage(RestoredMessage)
      && RestoreDbPath(h) in r.disk.files && r.disk.files[RestoreDbPath(h)] == d.files[RestoreDbPath(h)]
  {
    var a := ExportRun(h, cs, d, eenv).response.archive;
    var tmp := ImportFolder(h.tempDir, env.guid);
    ExportArchiveExtracts(h, cs, d, eenv, tmp);
    RestoreSucceedsIf(h, later, Some(Upload(bytes, Some(a))), env);
    RestoreSucceedsOnlyIf(h, later, Some(Upload(bytes, Some(a))), env);
  }

  /** Restoring an archive Export served also brings back the uploads
      folder as it was at backup time, when it held files: afterwards the
      live folder holds exactly the files Export listed, each with the
      contents Export read (nothing, for a file locked throughout its
      pass). */
  lemma ExportRestoreUploadsRoundTrip(h: Host, cs: Option<string>, d: Disk, eenv: ExportEnv,
                                      later: Disk, bytes: Bytes, env: ImportEnv)
    requires ExportTemp(h, eenv) != ExportDataSource(cs, h) && ExportTemp(h, eenv) !in eenv.listing
    requires !Under(ExportTemp(h, eenv), BackupUploads(h))
    requires forall i :: 0 <= i < |eenv.listing| ==> PlainRelative(UploadRel(BackupUploads(h), eenv.listing[i]))
    requires IsListing(d.files, BackupUploads(h), eenv.listing) && |eenv.listing| > 0
    requires ExportRun(h, cs, d, eenv).response.ZipDownload?
    requires |bytes| > 0 && env.createOk && env.saveOk && env.closeOk && env.copyOk && env.uploads.Replaced?
    requires RestoreApart(h, later, env) && UploadsApart(h, env)
    requires IsListing(RestoreExtraction(h, later, Upload(bytes, Some(ExportRun(h, cs, d, eenv).response.archive)), env).files,
                       Combine(ImportFolder(h.tempDir, env.guid), "uploads"), env.listing)
    ensures var a := ExportRun(h, cs, d, eenv).response.archive;
      var r := RestoreRun(h, later, Some(Upload(bytes, Some(a))), env);
      r.response == OkMessage(RestoredMessage)
      && (forall i :: 0 <= i < |eenv.listing| ==>
            var f := eenv.listing[i];
            f in r.disk.files && (r.disk.files[f] == d.files[f] || r.disk.files[f] == []))
      && (forall q :: q in r.disk.files && Under(q, BackupUploads(h)) ==> q in eenv.listing)
  {
    var a := ExportRun(h, cs, d, eenv).response.archive;
    var uploads := BackupUploads(h);
    var p := ExportedPairs(h, cs, d, eenv);
    RestoreLayoutUploads(h, later, bytes, env, d.files[ExportDataSource(cs, h)], p);
    ListedBack(RestoreRun(h, later, Some(Upload(bytes, Some(a))), env).disk, uploads, eenv.listing, p);
  }

  /** Restoring a backup archive that carries uploads, with the
      replacement done: the live uploads folder ends holding each upload
      at its relative path with its contents, and nothing else. */
  lemma RestoreLayoutUploads(h: Host, d: Disk, bytes: Bytes, env: ImportEnv, db: Bytes, p: seq<(string, Bytes)>)
    requires RestoreApart(h, d, env) && UploadsApart(h, env)
    requires |bytes| > 0 && env.createOk && env.saveOk && env.closeOk && env.copyOk && env.uploads.Replaced?
    requires |p| > 0 && forall i :: 0 <= i < |p| ==> PlainRelative(p[i].0)
    requires forall i, j :: 0 <= i < j < |p| ==> p[i].0 != p[j].0
    requires IsListing(RestoreExtraction(h, d, Upload(bytes, Some(BackupLayout(db, p))), env).files,
                       Combine(ImportFolder(h.tempDir, env.guid), "uploads"), env.listing)
    ensures var r := RestoreRun(h, d, Some(Upload(bytes, Some(BackupLayout(db, p)))), env);
      var target := Combine(h.webRoot.value, "uploads");
      r.response == OkMessage(RestoredMessage)
      && (forall i :: 0 <= i < |p| ==> Combine(target, p[i].0) in r.disk.files && r.disk.files[Combine(target, p[i].0)] == p[i].1)
      && (forall q :: q in r.disk.files && Under(q, target) ==> exists i :: 0 <= i < |p| && q == Combine(target, p[i].0))
  {
    var a := BackupLayout(db, p);
    var u := Upload(bytes, Some(a));
    var tmp := ImportFolder(h.tempDir, env.guid);
    LayoutAccepted(db, p);
    DbWrittenOnce(tmp, db, p);
    assert CopiesDb(h, Some(u), env);
    RestoreReplacesUploads(h, d, u, env);
    var d1 := WriteFile(MakeDir(d, tmp), Combine(tmp, "backup.zip"), bytes);
    ExtractCompletes(d1, tmp, a);
    SavedOutsideUploads(d, tmp, bytes);
    LayoutMirrored(RestoreRun(h, d, Some(u), env).disk, Combine(h.webRoot.value, "uploads"), d1, tmp, db, p);
  }

  /** Export's archive laid out as relative paths and contents: one pair
      per listed upload, in listing order, with the data of its entry. */
  lemma ExportedPairs(h: Host, cs: Option<string>, d: Disk, eenv: ExportEnv) returns (p: seq<(string, Bytes)>)
    requires ExportTemp(h, eenv) != ExportDataSource(cs, h) && ExportTemp(h, eenv) !in eenv.listing
    requires !Under(ExportTemp(h, eenv), BackupUploads(h))
    requires forall i :: 0 <= i < |eenv.listing| ==> PlainRelative(UploadRel(BackupUploads(h), eenv.listing[i]))
    requires IsListing(d.files, BackupUploads(h), eenv.listing) && |eenv.listing| > 0
    requires ExportRun(h, cs, d, eenv).response.ZipDownload?
    ensures var a := ExportRun(h, cs, d, eenv).response.archive;
      ExportDataSource(cs, h) in d.files && a == BackupLayout(d.files[ExportDataSource(cs, h)], p)
      && |p| == |eenv.listing|
      && (forall i :: 0 <= i < |p| ==> PlainRelative(p[i].0))
      && (forall i, j :: 0 <= i < j < |p| ==> p[i].0 != p[j].0)
      && (forall i :: 0 <= i < |p| ==>
            p[i].0 == Relative(eenv.listing[i], BackupUploads(h))
            && (p[i].1 == d.files[eenv.listing[i]] || p[i].1 == []))
  {
    var a := ExportRun(h, cs, d, eenv).response.archive;
    var ds := ExportDataSource(cs, h);
    var uploads := BackupUploads(h);
    ExportArchive(h, cs, d, eenv);
    assert DirExists(d, uploads) by { assert eenv.listing[0] in d.files && Under(eenv.listing[0], uploads); }
    var attempts := if DirectExport(d, ds, uploads, eenv).Some? then eenv.directFileAttempts else eenv.snapshotFileAttempts;
    assert PassLayout(a, d.files[ds], d.files, uploads, true, eenv.listing, attempts);
    p := LayoutPairs(a, d.files[ds], d.files, uploads, true, eenv.listing, attempts);
    forall i | 0 <= i < |p| ensures p[i].0 == Relative(eenv.listing[i], uploads) {
      assert a[i + 1] == Entry(UploadEntryName(p[i].0), p[i].1);
      UploadEntryNamesDiffer(p[i].0, UploadRel(uploads, eenv.listing[i]));
    }
    forall i, j | 0 <= i < j < |p| ensures p[i].0 != p[j].0 {
      UnderRelative(eenv.listing[i], uploads);
      UnderRelative(eenv.listing[j], uploads);
    }
    forall i | 0 <= i < |p| ensures p[i].1 == d.files[eenv.listing[i]] || p[i].1 == [] {
      assert a[i + 1] == Entry(UploadEntryName(p[i].0), p[i].1);
    }
  }

  // --------------------------------------------------------------- methods

  /** One uploads file: probed 30 times 150 ms apart, then read when an
      attempt opened it. */
  method ReadUpload(files: map<string, Bytes>, f: string, attempts: seq<OpenResult>) returns (data: Option<Bytes>)
    ensures data == ProbedUpload(files, f, attempts)
  {
    var probe, _ := TryOpenForRead(attempts, FileRetries, 150);
    if probe.Threw? || (probe.Ready? && f !in files) {
      return None;
    }
    if probe.Ready? {
      return Some(files[f]);
    }
    data := Some([]);
  }

  /** One upload more extends the pass by its pair. */
  lemma ProbedUploadsSnoc(files: map<string, Bytes>, folder: string, listing: seq<string>,
                          attempts: string -> seq<OpenResult>, i: nat, pairs: seq<(string, Bytes)>)
    requires i < |listing| && ProbedUploads(files, folder, listing[..i], attempts) == Some(pairs)
    requires ProbedUpload(files, listing[i], attempts(listing[i])).Some?
    ensures ProbedUploads(files, folder, listing[..i + 1], attempts)
      == Some(pairs + [(UploadRel(folder, listing[i]), ProbedUpload(files, listing[i], attempts(listing[i])).value)])
  {
    assert listing[..i + 1][..i] == listing[..i];
  }

  /** One upload that ends the pass ends it for the whole listing. */
  lemma ProbedUploadsStop(files: map<string, Bytes>, folder: string, listing: seq<string>,
                          attempts: string -> seq<OpenResult>, i: nat)
    requires i < |listing| && ProbedUpload(files, listing[i], attempts(listing[i])).None?
    ensures ProbedUploads(files, folder, listing, attempts).None?
  {
  }

  /** The archive of one pass: database.db alone when there is no
      uploads folder, and the uploads loop otherwise. */
  method ZipUploads(files: map<string, Bytes>, db: Bytes, uploads: string, present: bool, listing: seq<string>,
                    attempts: string -> seq<OpenResult>)
    returns (archive: Option<Archive>)
    ensures archive == ZipWith(files, db, uploads, present, listing, attempts)
  {
    if !present {
      assert [Entry(DbEntryName, db)] == BackupLayout(db, []);
      return Some([Entry(DbEntryName, db)]);
    }
    archive := CollectProbed(files, db, uploads, listing, attempts);
  }

  /** The uploads loop of one pass: each listed file gets its entry, then
      is probed; a file still locked keeps its entry empty. */
  method CollectProbed(files: map<string, Bytes>, db: Bytes, uploads: string, listing: seq<string>,
                       attempts: string -> seq<OpenResult>)
    returns (archive: Option<Archive>)
    ensures archive == match ProbedUploads(files, uploads, listing, attempts)
      case None => None
      case Some(p) => Some(BackupLayout(db, p))
  {
    var entries: Archive := [Entry(DbEntryName, db)];
    ghost var pairs: seq<(string, Bytes)> := [];
    for i := 0 to |listing|
      invariant ProbedUploads(files, uploads, listing[..i], attempts) == Some(pairs)
      invariant entries == BackupLayout(db, pairs)
    {
      var f := listing[i];
      var data := ReadUpload(files, f, attempts(f));
      if data.None? {
        ProbedUploadsStop(files, uploads, listing, attempts, i);
        return None;
      }
      var x := (UploadRel(uploads, f), data.value);
      ProbedUploadsSnoc(files, uploads, listing, attempts, i, pairs);
      BackupLayoutSnoc(db, pairs, x);
      entries := entries + [Entry(UploadEntryName(x.0), x.1)];
      pairs := pairs + [x];
    }
    assert listing[..|listing|] == listing;
    archive := Some(entries);
  }

  /** The snapshot steps of Export on the file system. */
  method MakeTempCopy(fs: FileSystem, ds: string, tmp: string, useEngine: bool, env: ExportEnv) returns (made: bool)
    requires ds in fs.files
    modifies fs
    ensures (fs.View(), made) == MakeTemp(old(fs.View()), ds, tmp, useEngine, env)
  {
    made := false;
    if useEngine {
      if env.engineOk {
        fs.WriteAllBytes(tmp, fs.files[ds]);
        made := true;
      } else {
        fs.Delete(tmp);
      }
    }
    if !made && env.copyOk && ds in fs.files && tmp !in fs.files {
      fs.Copy(ds, tmp);
      made := true;
    }
  }

  /** The controller: the web host and the connection string of its
      database context. */
  class BackupController {
    const host: Host
    const connString: Option<string>

    constructor (h: Host, cs: Option<string>)
      ensures host == h && connString == cs
    {
      host := h;
      connString := cs;
    }

    /** Export, with the direct pass in its own try block. */
    method Export(fs: FileSystem, env: ExportEnv) returns (response: Response)
      modifies fs
      ensures Step(response, fs.View()) == ExportRun(host, connString, old(fs.View()), env)
    {
      var zipName := BackupZipName(env.zipStamp);
      var dataSource := ExportDataSource(connString, host);
      if dataSource !in fs.files {
        return ServerError(MissingDbMessage(dataSource));
      }
      var uploads := BackupUploads(host);
      var ready, _ := TryOpenForRead(env.dbAttempts, DbRetries, 200);
      if ready.Ready? {
        var direct := ZipUploads(fs.files, fs.files[dataSource], uploads, DirExists(fs.View(), uploads), env.listing, env.directFileAttempts);
        if direct.Some? {
          return ZipDownload(direct.value, zipName);
        }
      }
      response := SnapshotPass(fs, dataSource, uploads, ExportTemp(host, env), env);
    }

    /** The second pass of Export, on a snapshot of the database. */
    method SnapshotPass(fs: FileSystem, dataSource: string, uploads: string, tmp: string, env: ExportEnv) returns (response: Response)
      requires dataSource in fs.files
      modifies fs
      ensures Step(response, fs.View()) == SnapshotExport(old(fs.View()), dataSource, uploads, UseEngine(connString), tmp, env)
    {
      var made := MakeTempCopy(fs, dataSource, tmp, UseEngine(connString), env);
      if !made {
        return ServerError(NoSnapshotMessage);
      }
      var readyTmp, _ := TryOpenForRead(env.tmpAttempts, DbRetries, 200);
      if readyTmp.TimedOut? {
        return ServerError(SnapshotLockedMessage(tmp));
      }
      if readyTmp.Threw? {
        fs.Delete(tmp);
        return ServerError(ExportFailedPrefix + env.cause);
      }
      var zipped := ZipUploads(fs.files, fs.files[tmp], uploads, DirExists(fs.View(), uploads), env.listing, env.snapshotFileAttempts);
      fs.Delete(tmp);
      if zipped.None? {
        return ServerError(ExportFailedPrefix + env.cause);
      }
      response := ZipDownload(zipped.value, BackupZipName(env.zipStamp));
    }

    /** Restore: the temporary folder, the try block and the finally
        block's cleanup. */
    method Restore(fs: FileSystem, upload: Option<Upload>, env: ImportEnv) returns (response: Response)
      modifies fs
      ensures Step(response, fs.View()) == RestoreRun(host, old(fs.View()), upload, env)
    {
      if upload.None? || |upload.value.bytes| == 0 {
        return BadRequest(NoUploadMessage);
      }
      var tmp := ImportFolder(host.tempDir, env.guid);
      if !env.createOk {
        return Unhandled;
      }
      fs.CreateDirectory(tmp);
      if host.webRoot.None? {
        return Unhandled;
      }
      var uploads := Combine(host.webRoot.value, "uploads");
      response := RestoreBody(fs, tmp, uploads, upload.value, env);
      if DirExists(fs.View(), tmp) && env.cleanupOk {
        fs.DeleteDirectory(tmp);
      }
    }

    /** The try block of Restore. */
    method RestoreBody(fs: FileSystem, tmp: string, uploads: string, u: Upload, env: ImportEnv) returns (response: Response)
      modifies fs
      ensures Step(response, fs.View()) == ImportSteps(host, old(fs.View()), tmp, uploads, u, env)
    {
      if !env.saveOk {
        return ServerError(RestoreFailedPrefix + env.cause);
      }
      fs.WriteAllBytes(Combine(tmp, "backup.zip"), u.bytes);
      if u.archive.None? {
        return ServerError(RestoreFailedPrefix + env.cause);
      }
      var extracted := ExtractToDirectory(fs, tmp, u.archive.value);
      if !extracted {
        return ServerError(RestoreFailedPrefix + env.cause);
      }
      var backupDb := Combine(tmp, DbEntryName);
      if backupDb !in fs.files {
        return BadRequest(NoDatabaseMessage);
      }
      if !env.closeOk || !env.copyOk {
        return ServerError(RestoreFailedPrefix + env.cause);
      }
      fs.Copy(backupDb, RestoreDbPath(host));
      var source := Combine(tmp, "uploads");
      if DirExists(fs.View(), source) {
        var replaced := ReplaceUploadsFolder(fs, source, uploads, env.dirListing, env.listing, env.uploads);
        if !replaced {
          return ServerError(RestoreFailedPrefix + env.cause);
        }
      }
      response := OkMessage(RestoredMessage);
    }
  }
}
