# Photo catalogue: database location, backup/restore, Excel import and export

This project models the core of a small ASP.NET photo catalogue of plastic
samples ("vzorky"). The application keeps one SQLite database file,
`photoapp.db`, and a folder of uploaded images, `wwwroot\uploads`. The
modelled core is:

- **Start-up** (`Program.cs`). The application computes a connection
  string from configuration, then binds the DbContext to
  `<content root>\photoapp.db` regardless. It overwrites `SqliteDbPath`
  with that file and seeds an `admin` account into an empty Users table.
- **Database location.** `DatabaseBackupController` resolves the database
  from `SqliteDbPath`, `DefaultConnection` or `ConnectionStrings:Sqlite`.
  A value is either a file path or a connection string with a
  `data source=` key, and relative paths are resolved against the content
  root. `BackupController` parses the DbContext's connection string with
  its own copy of the parser.
- **Backup and restore, two controllers.**
  - `DatabaseBackupController` works under a process-wide gate. `GetBackup`
    takes a snapshot with the SQLite backup API, falling back to a file
    copy, and zips `database.db` with `uploads/...`; it deletes the
    snapshot after the response. `RestoreBackup` checks the upload's size
    first, then unpacks it into a fresh temporary folder. It requires
    `database.db` at the archive root and an `integrity_check` answer of
    "ok". It then makes a best-effort pre-restore copy, applies the upload
    into the running database, replaces the uploads folder and cleans up.
  - `BackupController` has no gate. `Export` first tries to read the live
    database directly, with bounded retries on locked files; failing that,
    it zips a snapshot. `Restore` copies `database.db` over
    `<content root>\photoapp.db` with no integrity check.
- **Excel import** (`ImportController.cs`, part of `PhotosController`). The
  workbook's `xl/media/` files are copied into the uploads folder. Each
  non-blank row of the first worksheet becomes a record, linked to the
  picture anchored in its photo cell. Per-row image failures become
  warnings, and the records are added together.
- **Catalogue rules** (`PhotosController`):
  - the Index filters (LIKE search, exact filters) and facet lists;
  - upload validation (size and content type);
  - Create, Edit and DeleteConfirmed, with the image files they write and
    delete;
  - the CSV export, newest first;
  - the Excel export in Id order with embedded pictures.

The file system is modelled as a value (`FileStore.Disk`: a map from
absolute path to bytes, plus a set of directories). A `FileSystem` class
wraps that value, and the controllers' methods update it in place.
Everything the program takes from outside is an input of the model. This
covers the SQLite engine's answers, the lock state of each open attempt,
whether each I/O call succeeds, GUIDs, time stamps and the directory
listings. Each controller action is a method. Its `ensures` equates the
response and the new state with a function of the inputs and the old
state, and lemmas about those functions state what the source promises.

Behaviour of the code that the model keeps:

- **Applying a restore.** `RestoreBackup` applies the upload with the
  SQLite backup API in a single attempt. `BackupController.Restore`
  copies the file with `File.Copy(..., overwrite: true)` and runs no
  integrity check.
- **Replacing the uploads.** Both restores delete the live uploads folder,
  create it again and copy the extracted files in one by one. A call that
  throws part-way leaves what was done so far: the old files may be gone
  and only some new ones copied. `RestoreBackup` logs this and still
  redirects. `BackupController.Restore` answers 500.
- **Snapshots and retries.** `GetBackup` takes its snapshot once; when the
  engine backup fails it makes one overwriting copy. `BackupController`
  tries to open the database 60 times and each upload 30 times, at a fixed
  delay.
- **Locked uploads.**
  - In `GetBackup`, an unreadable upload aborts the backup with a 500.
  - In `Export`, an upload locked on every attempt still gets its entry,
    with empty contents.
  - In `Export`, any other exception ends the pass.
- **Missing database.** `Export` answers 500 for a missing database;
  `GetBackup` answers 404.
- **Journal files.** The restore runs `wal_checkpoint(TRUNCATE)`. That
  step changes no file the model tracks.
- **Cleanup.**
  - A failure to create the temporary folder escapes `RestoreBackup` with
    the gate still taken.
  - A host without a web root makes `BackupController.Restore` leak the
    folder it has just created.
  - A snapshot found locked is left behind by `Export`.
- **Unspaced key.** Only the spaced `data source=` key makes a setting a
  connection string. A setting such as `DataSource=x.db` is taken as a
  file path, although the parser would accept it.
- **Success answers.** A successful restore answers with a redirect to
  `Photos/Index` (`DatabaseBackupController`) or with the JSON message
  "Obnova úspěšná." (`BackupController`).

Modules:

- `Text`: ASCII case mapping, Trim, IndexOf, Split/Join and number
  formatting.
- `Paths`: Windows `Path.Combine`, `IsPathRooted`, `GetFileName` and
  `GetExtension`.
- `Hosting`: host directories and configuration keys.
- `Records`: `PhotoRecord`, time stamps, image names and web paths.
- `FileStore`: the disk and the `FileSystem` class.
- `Zip`: archives, extraction and the backup layout.
- `Transfer`: temporary paths, the uploads replacement and extraction on
  the file system.
- `Retry`: the open-for-read probing.
- `Sheets`: the worksheet.
- `DataSource`: the connection-string parsers and location resolution.
- `Startup`: `Program.cs`.
- `DatabaseBackup` and `Backup`: the two backup controllers.
- `Query`: Index.
- `Photos`: `PhotosController`.
- `Import`: the Excel import.
- `RoundTrip`: the export followed by the import.

## Model

| member | source | states |
|---|---|---|
| Hosting.DbSetting | Controllers/DatabaseBackupController.cs:40-42 | the setting is absent only when all three keys are; SqliteDbPath wins when present |
| DataSource.ValueAfter | Controllers/DatabaseBackupController.cs:369-373 | the value read after the key never contains ';' and neither starts nor ends with a single quote, the last character trimmed |
| DataSource.RawDataSource | Controllers/DatabaseBackupController.cs:361-373 | the parser yields null exactly for blank input or input with neither "data source=" nor "datasource=" in any case |
| DataSource.SpacedKeyWins | Controllers/DatabaseBackupController.cs:364-369 | the first "data source=" in any case decides wherever it stands, earlier "datasource=" keys notwithstanding, and the value is read from right after it |
| DataSource.PlainKeyOtherwise | Controllers/DatabaseBackupController.cs:364-369 | without "data source=", the first "datasource=" in any case decides, and the value is read from right after it |
| DataSource.SpacedKeyAfter | Controllers/DatabaseBackupController.cs:361-373 | "Data Source=" after keys without a space is found where it stands and its plain value is read back ("Mode=ReadOnly;Data Source=x.db" gives x.db; "DataSource=a.db;Data Source=b.db" gives b.db) |
| DataSource.PlainValueAfter | Controllers/DatabaseBackupController.cs:369-373 | a value with no ';', no white space or quotes at its ends, before nothing or a ';', reads back as itself |
| DataSource.QuotedValueAfter | Controllers/DatabaseBackupController.cs:369-373 | a value in double or single quotes reads back without them; the trims run white space, then '"', then '\'' once each, so '"x"' keeps its double quotes |
| DataSource.Resolve | Controllers/DatabaseBackupController.cs:374-377 | a rooted value is kept as it is; against a rooted base, every result is rooted |
| DataSource.ExtractDataSource | Controllers/DatabaseBackupController.cs:361-379 | yields a path exactly when the raw parse finds a key; the path is rooted when the base is |
| DataSource.GetSqliteDataSource | Controllers/BackupController.cs:323-345 | a null connection string gives no path |
| DataSource.ParsersAgree | Controllers/BackupController.cs:323-345 | the two controllers' parsers give the same path when their fallback directories coincide |
| DataSource.ResolveLocation | Controllers/DatabaseBackupController.cs:40-64 | a blank setting gives content root\photoapp.db; a setting with "data source=" is the connection string, whose parsed path is the database; any other setting is a path resolved against the content root and wrapped as "Data Source=..."; a rooted base gives a rooted database path |
| DataSource.KeyedSettingParses | Controllers/DatabaseBackupController.cs:50-55 | a non-blank setting with "data source=" always parses to some path |
| DataSource.LeadingKeyValue | Controllers/DatabaseBackupController.cs:361-373 | "Data Source=" + v + (nothing or ";...") reads back exactly v, whatever keys follow |
| DataSource.ConnectionStringRoundTrip | Controllers/DatabaseBackupController.cs:361-379 | the connection string made from a plain rooted path parses back to that path |
| DataSource.EmptyValueIsBase | Controllers/DatabaseBackupController.cs:369-377 | an empty value ("Data Source=;") resolves to the base directory instead of being refused |
| DataSource.UnspacedKeyIsPath | Controllers/DatabaseBackupController.cs:50-64 | a setting with only the unspaced "datasource=" key is resolved as a file path, although the parser would accept it |
| DataSource.NoSpaceNoKey | Controllers/DatabaseBackupController.cs:50 | text without a space never contains "data source=" |
| Startup.ConfiguredConnection | Program.cs:14-23 | a non-blank DefaultConnection is used as it is; otherwise SqliteDbPath (or "photoapp.db") is used, prefixed with "Data Source=" exactly when it holds no '=' |
| Startup.UnconfiguredConnection | Program.cs:14-23 | with no configuration the string is "Data Source=photoapp.db" |
| Startup.AppBuilder.constructor | Program.cs:9 | the builder starts with the given configuration and no DbContext registration |
| Startup.AppBuilder.ConfigureDatabase | Program.cs:14-36 | returns the computed connection string, binds the DbContext to content root\photoapp.db, and overwrites only SqliteDbPath |
| Startup.DatabaseBackupUsesDbFile | Program.cs:26-36 | after start-up, DatabaseBackupController resolves exactly the DbContext's file, whatever the configuration said |
| Startup.BackupExportUsesDbFile | Program.cs:26-33 | after start-up, BackupController's Export reads the DbContext's file |
| Startup.PathSettingResolves | Controllers/DatabaseBackupController.cs:57-64 | a rooted setting without "data source=" is the database itself |
| Startup.Seeded | Program.cs:68-75 | an empty Users table gets exactly the admin account; a non-empty one is left as it is |
| Startup.SeedingIdempotent | Program.cs:68-75 | seeding again on a later start changes nothing |
| Startup.UserTable.constructor | Program.cs:68 | the table holds the given users |
| Startup.UserTable.SeedAdmin | Program.cs:71-75 | the new table is the seeded one |
| Paths.Combine | Controllers/PhotosController.cs:188 | Path.Combine: an empty part is dropped, a rooted second part replaces the first, and the result is empty only when both parts are |
| Paths.CombineRooted | Controllers/DatabaseBackupController.cs:47 | a path joined onto a rooted directory stays rooted |
| Paths.CombineUnder | Controllers/DatabaseBackupController.cs:188 | a plain name joined onto a directory lies inside it, with that name as its relative path |
| Paths.UnderTransitive | Controllers/DatabaseBackupController.cs:304 | a path inside a subfolder is inside the folder |
| Paths.GetFileName | Controllers/ImportController.cs:84 | Path.GetFileName is the suffix after the last separator: it holds no separator and is the whole path or preceded by one |
| Paths.GetExtension | Controllers/PhotosController.cs:187 | Path.GetExtension is empty or a dot with at least one character after it, so a "?? default" never applies |
| Paths.BackslashSlash | Controllers/DatabaseBackupController.cs:140 | turning '\\' into '/' for an entry name and back gives the path again |
| Records.Fresh | Models/PhotoRecord.cs:4-67 | a new record has Id 0, CreatedAt and UpdatedAt from two separate clock readings, "" in Supplier, OriginalName, Name, Code, Type, Notes, and null elsewhere |
| Records.FormatMinutes | Controllers/PhotosController.cs:414 | "yyyy-MM-dd HH:mm" prints only digits, '-', ' ' and ':' |
| Records.FormatMinutesShape | Controllers/PhotosController.cs:414 | a valid DateTime prints as 16 characters with the separators in their fixed places |
| Records.ImageNamePlain | Controllers/PhotosController.cs:187 | a GUID followed by an extension is a plain, non-rooted file name without separators |
| Records.UploadFileFound | Controllers/PhotosController.cs:287-294 | the web path a stored image is linked by names that stored file again when Edit or Delete looks for it |
| Records.WebFileEscapesRoot | Controllers/PhotosController.cs:389-395 | a stored path such as "/C:/x" names a file outside the web root |
| FileStore.WriteFile | Controllers/PhotosController.cs:188-191 | the file holds the bytes and no other path changes |
| FileStore.DeleteFile | Controllers/PhotosController.cs:392-395 | the file is gone and no other path changes |
| FileStore.CopyFile | Controllers/BackupController.cs:283 | the destination holds the source's bytes, every other file keeps its contents, and the directories are unchanged |
| FileStore.MakeDir | Controllers/DatabaseBackupController.cs:189 | the directory exists and the files are unchanged |
| FileStore.EnsureDir | Controllers/ImportController.cs:54-56 | the directory exists and the files are unchanged |
| FileStore.DeleteTree | Controllers/DatabaseBackupController.cs:313 | removes exactly the files inside the folder and the folder itself |
| FileStore.DeleteTreePart | Controllers/DatabaseBackupController.cs:313 | a recursive delete that throws part-way has removed exactly the given files inside the folder, and the folder and directories remain |
| FileStore.CopyFilesEffect | Controllers/DatabaseBackupController.cs:343-359 | every listed file reaches its destination with its contents, other files are kept, and nothing is removed |
| FileStore.CopyFilesFrame | Controllers/DatabaseBackupController.cs:343-359 | a path no file is copied to keeps its contents |
| FileStore.DestMirrors | Controllers/DatabaseBackupController.cs:343-359 | a file whose relative path does not spell the source again is copied to the same relative path under the target |
| FileStore.DestRewritesRepeats | Controllers/DatabaseBackupController.cs:354 | String.Replace rewrites every occurrence of the source folder, not only the leading one |
| FileStore.CopyTreeMirrors | Controllers/DatabaseBackupController.cs:343-359 | CopyDirectory copies every file of the source to its relative path under the target, keeps every file outside the target, and adds nothing else |
| FileStore.FileSystem.constructor | Controllers/PhotosController.cs:22-26 | the file system starts as the given disk |
| FileStore.FileSystem.WriteAllBytes | Controllers/ImportController.cs:211-219 | the new disk is the old one with that file written |
| FileStore.FileSystem.Delete | Controllers/PhotosController.cs:392-395 | the new disk is the old one with that file deleted |
| FileStore.FileSystem.Copy | Controllers/BackupController.cs:283 | the new disk is the old one with the file copied |
| FileStore.FileSystem.CreateDirectory | Controllers/DatabaseBackupController.cs:189 | the new disk has the directory |
| FileStore.FileSystem.DeleteDirectory | Controllers/DatabaseBackupController.cs:337 | the new disk is the old one without the folder's tree |
| FileStore.FileSystem.DeleteDirectoryPart | Controllers/DatabaseBackupController.cs:313 | the new disk is the old one with the files removed so far deleted |
| FileStore.FileSystem.CopyDirectory | Controllers/DatabaseBackupController.cs:343-359 | the new disk is the copy of the tree over the given listings |
| Transfer.DeleteAfterResponse | Controllers/DatabaseBackupController.cs:151-155 | every path named by the completion callback is gone afterwards and every other path is unchanged |
| Transfer.RemoveTemp | Controllers/DatabaseBackupController.cs:335-339 | a successful deletion leaves nothing inside the temporary folder; nothing outside it changes |
| Transfer.ReplaceUploadsMirrors | Controllers/DatabaseBackupController.cs:304-323 | after the replacement the uploads folder holds exactly the extracted files at their relative paths, and nothing outside it changes |
| Transfer.ReplaceUploadsFrame | Controllers/BackupController.cs:289-297 | replacing the uploads changes nothing outside the target folder |
| Transfer.ExtractToDirectory | Controllers/DatabaseBackupController.cs:200-208 | entry-by-entry extraction agrees with ExtractAll, stopping at the first refused name |
| Transfer.ReplaceUploadsFolder | Controllers/DatabaseBackupController.cs:306-316 | it returns normally exactly when every call in the replacement returns, and the new disk is the old one with the replacement done as far as the outcome says |
| Transfer.UploadsAfterFrame | Controllers/BackupController.cs:289-297 | however the replacement ends, nothing outside the live uploads folder changes |
| Transfer.UploadsCopyThrew | Controllers/BackupController.cs:312-320 | when File.Copy throws on the k-th file, the folder holds the first k files at their relative paths and nothing else: the old uploads are gone |
| Transfer.CopiedCount | Controllers/DatabaseBackupController.cs:351-358 | the number of files copied before the throw is the index of the failing file, never more than were listed |
| Transfer.DbKeyInTemp | Controllers/DatabaseBackupController.cs:211-215 | database.db is at the root of the extracted folder exactly when an entry wrote it, and then holds that entry's bytes |
| Zip.ExtractStaysInside | Controllers/DatabaseBackupController.cs:200-208 | extraction writes nothing outside the target folder, whether it completes or stops |
| Zip.ExtractCompletes | Controllers/DatabaseBackupController.cs:200-208 | extraction completes exactly when no entry name is refused |
| Zip.ExtractedContents | Controllers/DatabaseBackupController.cs:200-208 | after extraction each path holds what the last entry written to it carried, or its old contents |
| Zip.BackupLayout | Controllers/DatabaseBackupController.cs:122-145 | the backup archive is database.db first, then one "uploads/<relative path>" entry per upload, in listing order |
| Zip.BackupLayoutSnoc | Controllers/DatabaseBackupController.cs:130-145 | one more upload appends its entry at the end |
| Zip.UploadEntryPath | Controllers/DatabaseBackupController.cs:137-140 | an upload's entry name is accepted and extracts to uploads\<relative path> |
| Zip.LayoutAccepted | Controllers/DatabaseBackupController.cs:122-145 | no entry of a backup archive is refused by extraction |
| Zip.DbWrittenOnce | Controllers/DatabaseBackupController.cs:122-127 | only the first entry writes <folder>\database.db, so extraction leaves the snapshot there |
| Zip.UploadWrittenOnce | Controllers/DatabaseBackupController.cs:130-145 | each upload is the only entry writing its path |
| Zip.LayoutRoundTrip | Controllers/DatabaseBackupController.cs:114-145 | extracting a backup archive completes and reproduces the database bytes and every upload at uploads\<relative path> with its bytes |
| Zip.DbExtracted | Controllers/DatabaseBackupController.cs:122-127 | an extracted backup archive leaves the database snapshot at database.db |
| Zip.UploadsExtracted | Controllers/DatabaseBackupController.cs:130-145 | an extracted backup archive leaves every upload at uploads\<relative path> with its bytes |
| Retry.ProbeFrom | Controllers/BackupController.cs:74-91 | probing ends open at the first attempt that opens, throws at the first non-IO failure, and times out only when every attempt was locked |
| Retry.MoreRetriesAgree | Controllers/BackupController.cs:74-91 | allowing more attempts never changes an outcome already reached |
| Retry.AlwaysLockedTimesOut | Controllers/BackupController.cs:74-91 | a file locked throughout times out |
| Retry.TryOpenForRead | Controllers/BackupController.cs:74-91 | the retry loop agrees with ProbeOpen and waits the fixed delay once per locked attempt |
| Retry.WaitForFileReady | Controllers/BackupController.cs:31-48 | returns when the file opens, throws the "still locked" IOException after maxRetries locked attempts, and rethrows other failures; it waits once per locked attempt |
| Sheets.CellText | Controllers/ImportController.cs:133-138 | an empty cell's text is "" |
| Sheets.SetCell | Controllers/PhotosController.cs:463-474 | a value is stored and extends the used range; null leaves the cell empty |
| Sheets.PutRow | Controllers/PhotosController.cs:463-474 | writing a row sets exactly its cells 1..n and extends the used range only when some value is non-null |
| Sheets.FirstPicture | Controllers/ImportController.cs:161-166 | finds the first picture anchored in the row's photo cell, or none |
| Sheets.FirstPictureSnoc | Controllers/ImportController.cs:161-166 | adding a drawing changes the match only for a row that had none |
| Sheets.Worksheet.constructor | Controllers/PhotosController.cs:442 | a new worksheet is empty |
| Sheets.Worksheet.SetValue | Controllers/PhotosController.cs:463-474 | the new sheet is the old one with the cell set |
| Sheets.Worksheet.AddPicture | Controllers/PhotosController.cs:477-491 | it succeeds exactly when the bytes load as a picture (never for an empty stream); then the picture is appended with its anchor and image and the drawing count grows by one, and otherwise the sheet is unchanged |
| Query.LikeIsContains | Controllers/PhotosController.cs:45-55 | LIKE '%term%' on a term without wildcards is case-insensitive containment |
| Query.LikePrefix | Controllers/PhotosController.cs:45-55 | "s%" matches exactly the values that start with s, ignoring case |
| Query.LikeLeading | Controllers/PhotosController.cs:45-55 | "%t" matches exactly the values with a suffix that t matches |
| Query.UnderscoreMatchesAny | Controllers/PhotosController.cs:45-55 | an underscore in the term stays a wildcard: "_" matches every non-empty value |
| Query.SearchIsContains | Controllers/PhotosController.cs:45-55 | a search without wildcards keeps a record exactly when Name, OriginalName, Description, Notes or Code contains the term |
| Query.PercentKeepsAll | Controllers/PhotosController.cs:45-55 | a search for "%" keeps every record |
| Query.NoFiltersSelectAll | Controllers/PhotosController.cs:39-77 | with no parameter set every record is listed |
| Query.FiltersConjunctive | Controllers/PhotosController.cs:45-77 | a record passes all the filters exactly when it passes each one set alone |
| Query.ExactFilterNotTrimmed | Controllers/PhotosController.cs:57-77 | exact filters compare the parameter untrimmed, so a trailing space excludes the matching record |
| Query.Where | Controllers/PhotosController.cs:45-77 | the filtered list holds each selected record as often as the table does, and nothing else |
| Query.SortBy | Controllers/PhotosController.cs:80 | sorting is a permutation that is ascending in the key |
| Query.NewestFirstOrder | Controllers/PhotosController.cs:80 | OrderByDescending(UpdatedAt) is a permutation, newest first |
| Query.InsertDistinct | Controllers/PhotosController.cs:83-131 | inserting into a strictly ascending list keeps it strictly ascending and adds exactly the value |
| Query.Facet | Controllers/PhotosController.cs:83-131 | a facet list is the distinct non-empty values of its column, in ascending ordinal order |
| Query.Index | Controllers/PhotosController.cs:39-154 | the items are exactly the selected records, newest first; the seven facet lists are those of the whole table |
| Query.FacetsIgnoreFilters | Controllers/PhotosController.cs:83-131 | the facet lists do not depend on the filters |
| Photos.CheckUpload | Controllers/PhotosController.cs:169-181 | no file or an empty one is no upload; a file is accepted exactly when it is at most 5 MB with a permitted type; otherwise it is refused with the size error first |
| Photos.ContentTypeCaseMatters | Controllers/PhotosController.cs:20 | the type comparison is exact: "image/JPEG" is refused |
| Photos.NewPhoto | Controllers/PhotosController.cs:199-222 | the created entity has the form's fields, PhotoPath from the upload when there is one, CreatedAt and UpdatedAt from the two clock readings of lines 220-221, and no Id |
| Photos.EditRecord | Controllers/PhotosController.cs:296-319 | the edited entity takes the form's fields, keeps Id, PhotoFileName and CreatedAt, replaces PhotoPath only with a new upload, and sets UpdatedAt to now |
| Photos.MaxId | Controllers/PhotosController.cs:224-226 | no record has a larger Id |
| Photos.NextId | Controllers/PhotosController.cs:224-226 | a new Id is positive, larger than every Id in use and larger than the sqlite_sequence entry, so no Id is handed out twice |
| Photos.Insert | Controllers/PhotosController.cs:224-226 | Add appends the record under a fresh Id above the sqlite_sequence entry, keeping the others and Id distinctness |
| Photos.InsertAll | Controllers/ImportController.cs:237-241 | AddRange appends the records in order, each under a fresh Id above the original sqlite_sequence entry, keeping Id distinctness |
| Photos.FindIndex | Controllers/PhotosController.cs:256-257 | the found record has the Id; none found means no record has it |
| Photos.FindIndexUnique | Controllers/PhotosController.cs:256-257 | with distinct Ids, looking up a record's Id finds that record |
| Photos.RemoveAt | Controllers/PhotosController.cs:398-399 | removal drops exactly that record, keeps the order and Id distinctness |
| Photos.PhotoStore.constructor | Controllers/PhotosController.cs:22-26 | the table starts with the given records, Ids distinct, and its sequence entry at or above every Id in use |
| Photos.PhotoStore.Add | Controllers/PhotosController.cs:224-225 | the table is the old one with the record inserted; the returned Id is its new Id, above the old sequence entry, and becomes the entry |
| Photos.PhotoStore.AddRange | Controllers/ImportController.cs:237-241 | the table is the old one with all records inserted in order, and the sequence entry is the last new Id |
| Photos.PhotoStore.Put | Controllers/PhotosController.cs:321-322 | only the record at that position is replaced; the sequence entry stays |
| Photos.PhotoStore.Remove | Controllers/PhotosController.cs:398-399 | the table is the old one without that record; the sequence entry stays, so the Id is not given out again |
| Photos.SaveUpload | Controllers/PhotosController.cs:183-195 | the upload is stored at uploads\{guid}{ext} and nothing else changes |
| Photos.DeleteIfExists | Controllers/PhotosController.cs:389-395 | the file is gone afterwards and nothing else changes |
| Photos.EditRun | Controllers/PhotosController.cs:245-332 | Edit never changes the number of records |
| Photos.CreateLinksUpload | Controllers/PhotosController.cs:161-227 | Create with an accepted upload adds a record whose PhotoPath links the stored file, which holds the upload |
| Photos.DeleteThenCreateFreshId | Controllers/PhotosController.cs:224-226 | a record Create adds after a Delete gets an Id that no earlier record had, the deleted one included |
| Photos.CreateWithoutUpload | Controllers/PhotosController.cs:169-181 | without a file the form's PhotoPath is kept and nothing is written; a refused file changes nothing and reports why |
| Photos.EditNotFound | Controllers/PhotosController.cs:247-257 | a mismatched or unknown id answers NotFound and changes nothing |
| Photos.EditUpdatesInPlace | Controllers/PhotosController.cs:296-330 | a successful edit changes only that record: form fields and UpdatedAt, keeping Id, CreatedAt and PhotoFileName; without an upload, PhotoPath and the disk are kept |
| Photos.EditReplacesPhoto | Controllers/PhotosController.cs:260-296 | a new upload replaces PhotoPath, stores the file and deletes the old one, changing no other file |
| Photos.DeleteRemovesPhoto | Controllers/PhotosController.cs:384-402 | deletion removes the record and the file its PhotoPath names; a record without one leaves the disk |
| Photos.CsvFixedFields | Controllers/PhotosController.cs:414 | Id and the time stamp never contain ';' |
| Photos.CsvLineColumns | Controllers/PhotosController.cs:414 | a CSV line splits into eight columns exactly when no text field contains ';' |
| Photos.CsvLineRoundTrip | Controllers/PhotosController.cs:414 | when no field contains ';', splitting a line gives the fields back |
| Photos.BuildCsv | Controllers/PhotosController.cs:409-416 | the StringBuilder loop produces the header line and one line per record, in order |
| Photos.HeaderValues | Controllers/PhotosController.cs:445-455 | the header row holds the thirteen column names |
| Photos.SheetFields | Controllers/PhotosController.cs:463-474 | a record is written as twelve cell values |
| Photos.ByIdOrder | Controllers/PhotosController.cs:437-439 | OrderBy(Id) is a permutation ascending in Id |
| Photos.ExportRowLayout | Controllers/PhotosController.cs:458-494 | one pass of the export loop keeps the sheet layout, and fails exactly for an ImagePath with no web root or for an existing image file that does not load as a picture |
| Photos.ExportRowsLayout | Controllers/PhotosController.cs:442-494 | the export fails exactly when some record fails its pass (an ImagePath with no web root, or an existing image file that does not load as a picture); otherwise the sheet has the header, each record's values in row i + 2, and each record's image anchored in its photo cell |
| Photos.HeaderLayout | Controllers/PhotosController.cs:445-455 | the sheet after the header loop already has the export layout for no records |
| Photos.ExportFailsEarly | Controllers/PhotosController.cs:458-494 | a failure on one record fails the whole export |
| Photos.PhotosController.constructor | Controllers/PhotosController.cs:22-26 | the controller keeps the host's web root |
| Photos.PhotosController.SaveFile | Controllers/PhotosController.cs:183-195 | returns the stored name {guid}{ext} and stores the upload |
| Photos.PhotosController.Create | Controllers/PhotosController.cs:161-227 | the outcome, table and disk are those CreateRun gives, the table keeps distinct Ids, and the sequence entry moves to the new Id |
| Photos.PhotosController.Edit | Controllers/PhotosController.cs:245-332 | the outcome, table and disk are those EditRun gives, the table keeps distinct Ids, and the sequence entry stays |
| Photos.PhotosController.DeleteConfirmed | Controllers/PhotosController.cs:384-402 | the outcome, table and disk are those DeleteRun gives, the table keeps distinct Ids, and the sequence entry stays |
| Photos.PhotosController.Import | Controllers/ImportController.cs:40-247 | the outcome and disk are those ImportRunOf gives, the table gains exactly its records, and the sequence entry moves to the last new Id |
| Photos.PhotosController.ExportCsv | Controllers/PhotosController.cs:406-418 | the download is the CSV of the records newest first, named vzorky.csv |
| Photos.PhotosController.ExportZip | Controllers/PhotosController.cs:434-504 | the outcome is ExportZipRun's: the sheet of the records in Id order as vzorky_s_obrazky.xlsx, or the unhandled failure of a null web root or of an image that does not load |
| Photos.PhotosController.ExportRecord | Controllers/PhotosController.cs:458-494 | one pass writes the row and picture, and fails exactly when ExportRow does, including when AddPicture refuses the image |
| Photos.WriteHeader | Controllers/PhotosController.cs:445-455 | the header loop yields the header sheet |
| Photos.WriteRow | Controllers/PhotosController.cs:463-474 | the twelve assignments write the record's row |
| Import.MediaFilter | Controllers/ImportController.cs:72-73 | keeps exactly the entries under "xl/media/", each as often as in the archive |
| Import.SortByName | Controllers/ImportController.cs:74-75 | ordering by name is a permutation in ordinal name order |
| Import.MediaEntries | Controllers/ImportController.cs:72-75 | the saved entries are exactly the media entries, in name order |
| Import.SaveMedia | Controllers/ImportController.cs:69-93 | a completed copy lists one media file per entry |
| Import.SaveMediaList | Controllers/ImportController.cs:84-90 | each saved entry contributes its bytes and file name, in order |
| Import.SaveMediaSucceeds | Controllers/ImportController.cs:84-90 | the media copy fails exactly when some media entry has no file name |
| Import.SaveMediaFailed | Controllers/ImportController.cs:84-93 | once one media entry fails, the rest of the archive changes nothing more |
| Import.SaveMediaDisk | Controllers/ImportController.cs:84-90 | a completed media copy leaves at uploads\<file name> the bytes of the last entry with that name, adds no directory and changes no other path |
| Import.SaveMediaFiles | Controllers/ImportController.cs:69-93 | the loop writes the files and returns the media list that SaveMedia describes |
| Import.IsRowEmpty | Controllers/ImportController.cs:130-140 | a row is empty exactly when its first twelve cells are blank |
| Import.RowImage | Controllers/ImportController.cs:161-209 | a row gets image bytes only from a picture anchored in its photo cell; the picture's own bytes come with ".png"; otherwise the media file at the picture's own index, when it exists and is not empty, gives its bytes with that file's extension |
| Import.ImportedRecord | Controllers/ImportController.cs:142-227 | a row's record takes the twelve trimmed cells, and links its image exactly when the row has one and saving it succeeded; no ImagePath means no PhotoFileName |
| Import.LinkedImageWritten | Controllers/ImportController.cs:211-219 | a linked record's file is written under uploads\<PhotoFileName> with the row's image bytes and nothing else changes; an unlinked record writes nothing |
| Import.KeptRows | Controllers/ImportController.cs:128-140 | the scan keeps exactly the non-blank rows, in increasing order |
| Import.ImportedRecordsAt | Controllers/ImportController.cs:128-227 | the k-th added record is the record of the k-th kept row |
| Import.ImportRowsEffect | Controllers/ImportController.cs:128-230 | the row loop adds the records and warnings of the kept rows, in order |
| Import.ImportRow | Controllers/ImportController.cs:128-227 | one pass of the loop agrees with RowStep on records, warnings and disk |
| Import.ImportSheet | Controllers/ImportController.cs:106-230 | the row loop agrees with ImportRows |
| Import.ReadUpload | Controllers/ImportController.cs:69-230 | reading the workbook agrees with ReadWorkbook, and reports a missing worksheet |
| Import.ImportRunOf | Controllers/ImportController.cs:40-247 | no upload or an empty one redisplays the form and changes nothing; a missing web root is an unhandled exception; only a finished import adds records |
| Import.ReadFailed | Controllers/ImportController.cs:232-235 | a failed media copy ends in the outer catch's warning, keeping the files written so far |
| Import.ImportRunRead | Controllers/ImportController.cs:54-246 | with a web root, the outcome is the reading's result: the form for a missing worksheet, or the summary of records and warnings |
| Import.NoWorksheetKeepsMedia | Controllers/ImportController.cs:99-104 | a workbook without a worksheet shows the error and adds nothing, yet its media files stay in the uploads folder |
| Import.ImportAddsKeptRows | Controllers/ImportController.cs:106-246 | a finished import adds one record per non-blank row of the first worksheet, in row order |
| RoundTrip.Reimported | Controllers/ImportController.cs:142-158 | the record an exported row becomes: its fields trimmed, Supplier, OriginalName and Notes "" for null, the rest fresh |
| RoundTrip.KeptIndices | Controllers/ImportController.cs:128-140 | the rows of exactly the records that are not blank when exported |
| RoundTrip.BlankRowIffExportedBlank | Controllers/PhotosController.cs:463-474 | an exported row is blank to the import exactly when its record's twelve values are null or white space |
| RoundTrip.KeptRowsPrefix | Controllers/ImportController.cs:128-140 | over an exported sheet, the scan of the first m rows keeps those of the first m non-blank records |
| RoundTrip.KeptRowsOfExport | Controllers/ImportController.cs:128-140 | the scan of an exported sheet keeps exactly the rows of its non-blank records, in order |
| RoundTrip.RowRecordOfExport | Controllers/ImportController.cs:142-158 | the import reads a record's values back from its row, trimmed |
| RoundTrip.RowImageOfExport | Controllers/ImportController.cs:161-209 | a record exported with a non-empty image gets those bytes back as ".png"; one exported without an image gets none |
| RoundTrip.ImportOfExport | Controllers/PhotosController.cs:434-504 | importing an exported sheet adds the Reimported form of each non-blank record, in order, linked to its exported image |
| RoundTrip.ExportThenImport | Controllers/PhotosController.cs:434-504 | the same, starting from the table as ExportZip orders it |
| RoundTrip.ImportOfExportedWorkbook | Controllers/ImportController.cs:40-247 | the import action on the exported workbook finishes and adds those records in Id order |
| DatabaseBackup.OpGate.constructor | Controllers/DatabaseBackupController.cs:22 | the gate starts free |
| DatabaseBackup.OpGate.Wait | Controllers/DatabaseBackupController.cs:78 | WaitAsync takes a free gate; a held gate is not entered and nothing changes |
| DatabaseBackup.OpGate.Release | Controllers/DatabaseBackupController.cs:167 | Release gives one count back |
| DatabaseBackup.TakeSnapshot | Controllers/DatabaseBackupController.cs:88-111 | the snapshot exists exactly when the engine backup or the overwriting copy succeeded, holds the database, and no other path changes |
| DatabaseBackup.UploadPairs | Controllers/DatabaseBackupController.cs:130-145 | the uploads are collected exactly when every listed file is readable, each with its relative path and contents, in order |
| DatabaseBackup.UploadPairsMissing | Controllers/DatabaseBackupController.cs:130-145 | a single missing or unreadable upload fails the whole collection |
| DatabaseBackup.GetBackupGate | Controllers/DatabaseBackupController.cs:76-169 | a held gate makes GetBackup wait and change nothing; every other path leaves the gate as it found it |
| DatabaseBackup.GetBackupCount | Controllers/DatabaseBackupController.cs:78-169 | once past the gate, GetBackup does the same whatever count the semaphore had |
| DatabaseBackup.GetBackupArchive | Controllers/DatabaseBackupController.cs:81-157 | the download happens exactly when the database exists, the snapshot was made and every upload was readable; the archive is database.db with the database, then each upload in listing order, named backup_{stamp}.zip with the clock read again after the snapshot was named |
| DatabaseBackup.GetBackupSnapshotCleanup | Controllers/DatabaseBackupController.cs:151-164 | only a successful download schedules the snapshot's deletion, which removes it; a failed archive leaves it behind |
| DatabaseBackup.SaveFallback | Controllers/DatabaseBackupController.cs:236-252 | the pre-restore copy holds the live database when it exists and the copy succeeds; nothing else changes |
| DatabaseBackup.RestoreChecksSizeFirst | Controllers/DatabaseBackupController.cs:181-185 | empty and oversize uploads are 400 before the gate, change nothing, and are told apart by message |
| DatabaseBackup.RestoreGate | Controllers/DatabaseBackupController.cs:187-189 | a held gate blocks; a failure to create the temporary folder escapes with the gate still taken; otherwise the gate is given back |
| DatabaseBackup.BestEffortKeepsResponse | Controllers/DatabaseBackupController.cs:236-323 | the pre-restore copy, the uploads replacement (whether it completes, or throws in the delete or in a copy) and the cleanup never change the response |
| DatabaseBackup.RestoreRemovesTemp | Controllers/DatabaseBackupController.cs:335-339 | once the try block ran and deletion succeeds, no file is left in the temporary folder |
| DatabaseBackup.RestoreSucceedsIff | Controllers/DatabaseBackupController.cs:179-328 | the restore redirects exactly when the upload is acceptable, the gate is free, the archive extracts with database.db, integrity_check says "ok" and the apply succeeds |
| DatabaseBackup.StepsKeepLiveDb | Controllers/DatabaseBackupController.cs:193-287 | the steps inside the try block touch the live database only on the path that ends in the redirect |
| DatabaseBackup.CheckKeepsLiveDb | Controllers/DatabaseBackupController.cs:211-287 | a missing database.db, a failed integrity check or a failed apply leaves the live database |
| DatabaseBackup.LiveDbUntouchedUnlessRestored | Controllers/DatabaseBackupController.cs:179-340 | every restore that does not redirect leaves the live database as it was |
| DatabaseBackup.LiveDbRestored | Controllers/DatabaseBackupController.cs:275-287 | after a redirect the live database holds the archive's database.db |
| DatabaseBackup.ExtractedDb | Controllers/DatabaseBackupController.cs:193-215 | for a saved upload whose archive extracts, the live database is still untouched and tmp\database.db is there exactly when an entry wrote it, holding that entry's bytes |
| DatabaseBackup.ApplyAndUploads | Controllers/DatabaseBackupController.cs:236-328 | a restore whose checks all pass redirects, the live database holds database.db, and the pre-restore copy holds the old database when it existed and the copy succeeded |
| DatabaseBackup.ApplyEffect | Controllers/DatabaseBackupController.cs:236-328 | a successful apply redirects, puts database.db into the live database and keeps the pre-restore copy |
| DatabaseBackup.BackupRestoreRoundTrip | Controllers/DatabaseBackupController.cs:76-340 | restoring a GetBackup archive succeeds and gives the live database the bytes it had at backup time (the uploads folder: `BackupRestoreUploadsRoundTrip`) |
| DatabaseBackup.BackupRestoreUploadsRoundTrip | Controllers/DatabaseBackupController.cs:76-340 | restoring a GetBackup archive taken while the uploads folder held files brings every listed file back with its backup-time contents, and leaves no other file in the live uploads folder |
| DatabaseBackup.RestoreLayoutUploads | Controllers/DatabaseBackupController.cs:302-323 | a restore of a backup archive with uploads that passes every check leaves the live uploads folder holding each archived upload at its relative path, and nothing else |
| DatabaseBackup.RestoreReplacesUploads | Controllers/DatabaseBackupController.cs:302-323 | when every check passes and the replacement completes, the live uploads folder mirrors the extracted uploads folder: same relative paths, same contents, the old files gone |
| DatabaseBackup.RestoreKeepsUploads | Controllers/DatabaseBackupController.cs:179-339 | a file inside the live uploads folder changes only when every check passed, BackupDatabase succeeded and the archive brought an uploads folder |
| DatabaseBackup.BackupArchiveExtracts | Controllers/DatabaseBackupController.cs:114-145 | a GetBackup archive extracts completely and its only database.db entry carries the database |
| DatabaseBackup.MakeSnapshot | Controllers/DatabaseBackupController.cs:88-111 | the snapshot steps agree with TakeSnapshot |
| DatabaseBackup.CollectArchive | Controllers/DatabaseBackupController.cs:120-145 | the zip loop yields the backup layout of UploadPairs, or fails when it does |
| DatabaseBackup.DatabaseBackupController.constructor | Controllers/DatabaseBackupController.cs:36-68 | the settings are the resolved location and content root\db-backups, which is created unless that fails |
| DatabaseBackup.DatabaseBackupController.GetBackup | Controllers/DatabaseBackupController.cs:76-169 | response, disk, gate and deferred deletion are those of GetBackupRun |
| DatabaseBackup.DatabaseBackupController.BackupBody | Controllers/DatabaseBackupController.cs:81-164 | the try block agrees with GetBackupRun past the gate |
| DatabaseBackup.DatabaseBackupController.RestoreBackup | Controllers/DatabaseBackupController.cs:179-340 | response, disk and gate are those of RestoreRun, including an uploads folder left half replaced when a call inside its replacement throws |
| DatabaseBackup.DatabaseBackupController.RestoreBody | Controllers/DatabaseBackupController.cs:191-334 | the try block agrees with RestoreSteps, a failing uploads replacement included |
| Backup.ExportDataSource | Controllers/BackupController.cs:61-66 | the file Export reads is never empty; with no parsable connection string it is content root\photoapp.db; it is rooted when that root is |
| Backup.ProbedUpload | Controllers/BackupController.cs:118-139 | an upload ends the pass when probing throws or it vanished; one locked throughout contributes empty contents; otherwise it contributes its bytes |
| Backup.ProbedUploads | Controllers/BackupController.cs:118-139 | a pass collects every upload exactly when none ends it, each with its relative path, in order |
| Backup.ProbedUploadsStop | Controllers/BackupController.cs:118-139 | one upload that ends the pass ends it for the whole listing |
| Backup.MakeTemp | Controllers/BackupController.cs:154-192 | the snapshot exists only when the engine backup or the non-overwriting copy produced it |
| Backup.SnapshotOutcome | Controllers/BackupController.cs:194-249 | the snapshot pass ends in exactly one of: no snapshot; snapshot still locked, left behind; failure, deleted; archive, deleted |
| Backup.ExportMissingDb | Controllers/BackupController.cs:68-71 | Export never answers 404; a missing database is a 500 naming it and touches nothing |
| Backup.MessagesDiffer | Controllers/BackupController.cs:68-249 | the missing-database, no-snapshot, locked-snapshot and failure messages of Export are told apart |
| Backup.ExportDirectFirst | Controllers/BackupController.cs:96-151 | a direct read that succeeds answers from the live file and writes nothing; only a failed direct read goes on to the snapshot |
| Backup.ExportTouchesOnlySnapshot | Controllers/BackupController.cs:54-250 | Export changes no file except its snapshot, and no directory |
| Backup.ExportNoSnapshot | Controllers/BackupController.cs:194-197 | the "no snapshot" 500 happens exactly when the direct read failed and neither the engine backup nor the copy produced the snapshot |
| Backup.ExportSnapshotCleanup | Controllers/BackupController.cs:200-249 | a download and a failure delete the snapshot; a snapshot found locked stays behind |
| Backup.ExportArchive | Controllers/BackupController.cs:96-241 | a download holds database.db with the database, then the uploads of the pass that produced it, and is named backup_{stamp}.zip |
| Backup.ExportArchiveExtracts | Controllers/BackupController.cs:96-241 | an Export archive extracts completely and its database.db entry carries the database |
| Backup.RestoreRefusesEmpty | Controllers/BackupController.cs:259-260 | no upload or an empty one is 400 and touches nothing |
| Backup.RestoreWithoutWebRoot | Controllers/BackupController.cs:262-266 | a host without a web root throws before the try block, leaking the temporary folder |
| Backup.RestoreRemovesTemp | Controllers/BackupController.cs:306-309 | once the try block ran and deletion succeeds, nothing is left in the temporary folder |
| Backup.RestoreSucceedsOnlyIf | Controllers/BackupController.cs:271-299 | "Obnova úspěšná." means database.db was copied over content root\photoapp.db, whatever it contains |
| Backup.RestoreSucceedsIf | Controllers/BackupController.cs:271-299 | when the database is copied and the uploads step succeeds, Restore answers "Obnova úspěšná." |
| Backup.CopiedDb | Controllers/BackupController.cs:279-309 | once database.db is copied over the database, the uploads step and the cleanup leave it there |
| Backup.UploadsFailureAfterDbCopy | Controllers/BackupController.cs:283-305 | an uploads replacement that throws still leaves the archive's database.db over the database, while the answer is the 500 of the catch block (or success when there was no uploads folder) |
| Backup.RestoreDbChangedOnlyByCopy | Controllers/BackupController.cs:257-310 | the database file is unchanged, or holds the archive's database.db; a 400 leaves it |
| Backup.RestoreFrame | Controllers/BackupController.cs:257-310 | a restore changes nothing outside the temporary folder, the uploads folder and the database file (inside the uploads folder: `RestoreKeepsUploads`) |
| Backup.ExportRestoreRoundTrip | Controllers/BackupController.cs:54-310 | restoring an Export archive succeeds and gives the database file the bytes Export read (the uploads folder: `ExportRestoreUploadsRoundTrip`) |
| Backup.ExportRestoreUploadsRoundTrip | Controllers/BackupController.cs:54-310 | restoring an Export archive taken while the uploads folder held files brings every listed file back, with the bytes Export read or empty for a file locked throughout, and leaves no other file there |
| Backup.RestoreLayoutUploads | Controllers/BackupController.cs:288-297 | a restore of a backup archive with uploads leaves the live uploads folder holding each archived upload at its relative path, and nothing else |
| Backup.RestoreReplacesUploads | Controllers/BackupController.cs:288-299 | when the database is copied and the replacement completes, Restore answers "Obnova úspěšná." and the uploads folder mirrors the extracted one, the old files gone |
| Backup.RestoreKeepsUploads | Controllers/BackupController.cs:257-310 | a file inside the live uploads folder changes only when the database was copied and the archive brought an uploads folder |
| Backup.ReadUpload | Controllers/BackupController.cs:120-137 | the probe of one upload agrees with ProbedUpload |
| Backup.ZipUploads | Controllers/BackupController.cs:110-139 | one pass yields the archive ZipWith describes |
| Backup.CollectProbed | Controllers/BackupController.cs:118-139 | the uploads loop yields the backup layout of ProbedUploads, or fails when it does |
| Backup.MakeTempCopy | Controllers/BackupController.cs:154-192 | the snapshot steps agree with MakeTemp |
| Backup.BackupController.constructor | Controllers/BackupController.cs:23-28 | the controller keeps the host and the DbContext's connection string |
| Backup.BackupController.Export | Controllers/BackupController.cs:54-250 | response and disk are those of ExportRun |
| Backup.BackupController.SnapshotPass | Controllers/BackupController.cs:154-249 | the snapshot pass agrees with SnapshotExport |
| Backup.BackupController.Restore | Controllers/BackupController.cs:257-310 | response and disk are those of RestoreRun, including an uploads folder left half replaced behind a 500 |
| Backup.BackupController.RestoreBody | Controllers/BackupController.cs:268-305 | the try block agrees with ImportSteps, a failing uploads replacement included |

## Left out

- The SQLite engine. The backup API, `integrity_check`, `wal_checkpoint`
  and connection closing are inputs: whether each call succeeds and what it
  answers. A successful engine copy is modelled as a byte copy of the file.
- Zip compression and the container format. An archive is its list of
  entries, and an upload that is not a zip has no entry list.
- Concurrency. Requests are sequential. The `SemaphoreSlim` gate is a
  counter, and waiting on a held gate is the `Blocked` response; the
  waiting itself is not modelled.
- Timing. Delays are counted, not timed.
- EF Core and migrations. Tables are sequences of records. The migrations
  are not part of this model. EF Core's SQLite provider declares an `int`
  key as `INTEGER PRIMARY KEY AUTOINCREMENT`. A new row gets one more than
  the larger of the table's `sqlite_sequence` entry and the largest Id in
  use, so a deleted Id is never reused. `PhotoStore.lastId` is that entry.
- Which bytes EPPlus can decode as a picture. `AddPicture` reads the
  image's format and size from the stream and throws when it cannot. The
  model takes this as an input, `decodes`; an empty stream never loads.
- The EPPlus reflection probing for image bytes
  (`ImportController.cs:175-198`). Its result is the picture's
  `image`: bytes or none.
- Accounts, login, the Home, Admin and Account controllers and the
  JavaScript service workers. These are outside the core.
- `ExportJson` and the views. These are outside the core.
- GUIDs, clocks and time stamps are inputs. Each `DateTime.UtcNow` read is
  its own input, so CreatedAt and UpdatedAt of a new record may differ.
- `Path.GetFullPath` is the identity: `.` and `..` are not folded.
- Case mapping covers ASCII letters only. The culture-sensitive `IndexOf`
  in `BackupController.GetSqliteDataSource` is taken as ordinal.
- Logging, and the `TempData` strings only as far as counts are concerned.
  The warning texts are modelled.
- Database authentication and the `Data Source` keys other than the path.
- Query.Index: database collation is ordinal, with LIKE case-insensitive
  for ASCII only, as SQLite's default.
- Photos.EditRun: its own contract states only that the record count is
  kept. The other edit properties are in `EditNotFound`,
  `EditUpdatesInPlace` and `EditReplacesPhoto`.
- Query.NewestFirstOrder: the database leaves the order of equal
  `UpdatedAt` values open. The model keeps table order, and the contract
  promises only newest first.
- Import.SortByName: `OrderBy(e => e.FullName)` uses the culture's string
  comparer. The model compares names ordinally, so archives whose names
  differ only in ways the culture orders differently (case, accents) may
  come out in another order.
- Import.MediaEntries: inherits the ordinal order of `SortByName`. The
  order in which media are matched to rows is therefore stated for
  ordinal order only.
- Records.FormatMinutes: the `HH:mm` part uses the current culture's time
  separator and `yyyy` its calendar. The model fixes the separator as `:`
  and the calendar as Gregorian.
- Records.FormatMinutesShape: stated for the invariant-culture separators
  only, like `FormatMinutes`.
- Transfer.ReplaceUploadsFolder: a failing `Directory.Delete` and a failing
  `File.Copy` are modelled (`UploadsOutcome`). A failure of
  `CreateDirectory` after a complete delete, or of the subdirectory loop,
  is folded into those two outcomes and not modelled on its own.
- FileStore.CopyFiles: a listed file that is no longer on disk is skipped,
  where `File.Copy` in `CopyDirectory` would throw `FileNotFoundException`.
  The restore lemmas about the uploads folder require the listing to be
  the one `Directory.GetFiles` returns (`IsListing`), under which the case
  does not arise.
