/** What the ASP.NET host hands to the controllers: the web host
    environment and the configuration keys the core reads. */
module Hosting {
  import opened Text
  import opened Paths

  /** IWebHostEnvironment together with process state. ContentRootPath and
      WebRootPath may be null; AppContext.BaseDirectory, the current
      directory and Path.GetTempPath() are always known. */
  datatype Host = Host(
    contentRoot: Option<string>,
    webRoot: Option<string>,
    baseDir: string,
    cwd: string,
    tempDir: string)

  /** The configuration keys that locate the database:
      "SqliteDbPath", "ConnectionStrings:DefaultConnection" and
      "ConnectionStrings:Sqlite". A missing key reads as null. */
  datatype Config = Config(
    sqliteDbPath: Option<string>,
    defaultConnection: Option<string>,
    sqliteConnection: Option<string>)

  /** ContentRootPath ?? AppContext.BaseDirectory. */
  function RootOrBase(h: Host): string { h.contentRoot.GetOr(h.baseDir) }

  /** ContentRootPath ?? Directory.GetCurrentDirectory(). */
  function RootOrCwd(h: Host): string { h.contentRoot.GetOr(h.cwd) }

  /** The first of the three database keys that is present (not null). */
  function DbSetting(c: Config): (r: Option<string>)
    ensures r.None? <==> c.sqliteDbPath.None? && c.defaultConnection.None? && c.sqliteConnection.None?
    ensures c.sqliteDbPath.Some? ==> r == c.sqliteDbPath
  {
    if c.sqliteDbPath.Some? then c.sqliteDbPath
    else if c.defaultConnection.Some? then c.defaultConnection
    else c.sqliteConnection
  }
}
