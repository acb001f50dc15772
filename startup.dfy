/** The start-up code in Program.cs that concerns the database: the
    connection string it computes from configuration, the fixed file the
    DbContext is bound to, the SqliteDbPath key it overwrites for the
    controllers, and the admin account it seeds. */
module Startup {
  import opened Text
  import opened Paths
  import opened Hosting
  import opened DataSource
  import opened Backup

  /** Path.Combine(contentRoot, "photoapp.db"), the one database file the
      application uses. */
  function DbFile(contentRoot: string): string {
    Combine(contentRoot, DefaultDbFile)
  }

  /** Trimming drops white space only, so it neither adds nor removes an
      '='. */
  lemma TrimKeepsEquals(p: string)
    ensures ContainsChar(Trim(p), '=') <==> ContainsChar(p, '=')
  {
    if ContainsChar(p, '=') {
      var i :| 0 <= i < |p| && p[i] == '=';
      TrimKeeps(p, IsWhite, i);
    } else {
      TrimKeepsAbsent(p, IsWhite, '=');
    }
  }

  /** The connection string of lines 14-23: DefaultConnection when it is
      not blank; otherwise SqliteDbPath (or "photoapp.db"), prefixed with
      "Data Source=" exactly when it holds no '='. */
  function ConfiguredConnection(c: Config): (r: string)
    ensures !IsBlankOpt(c.defaultConnection) ==> r == c.defaultConnection.value
    ensures IsBlankOpt(c.defaultConnection) ==>
      var p := c.sqliteDbPath.GetOr(DefaultDbFile);
      (ContainsChar(p, '=') ==> r == p) && (!ContainsChar(p, '=') ==> r == "Data Source=" + p)
  {
    if !IsBlankOpt(c.defaultConnection) then c.defaultConnection.value
    else
      var p := c.sqliteDbPath.GetOr(DefaultDbFile);
      TrimKeepsEquals(p);
      if !ContainsChar(Trim(p), '=') then "Data Source=" + p else p
  }

  /** With nothing configured, the computed string names photoapp.db
      relative to the working directory. */
  lemma UnconfiguredConnection(sqlite: Option<string>)
    ensures ConfiguredConnection(Config(None, None, sqlite)) == "Data Source=" + DefaultDbFile
  {
    var p := DefaultDbFile;
    assert forall i :: 0 <= i < |p| ==> p[i] != '=';
    assert !ContainsChar(p, '=');
    var c := Config(None, None, sqlite);
    assert c.sqliteDbPath.GetOr(DefaultDbFile) == p;
  }

  /** Program.cs's WebApplicationBuilder, as far as the database goes: its
      configuration and the connection string the DbContext is registered
      with (None before AddDbContext). */
  class AppBuilder {
    var config: Config
    var dbContextConnection: Option<string>

    constructor (config: Config)
      ensures this.config == config && dbContextConnection.None?
    {
      this.config := config;
      dbContextConnection := None;
    }

    /** Lines 14-36: the computed connection string is returned but not
        used; the DbContext is always bound to content root\photoapp.db,
        and SqliteDbPath is overwritten with that file. */
    method ConfigureDatabase(contentRoot: string) returns (connectionString: string)
      modifies this
      ensures connectionString == ConfiguredConnection(old(config))
      ensures dbContextConnection == Some("Data Source=" + DbFile(contentRoot))
      ensures config == old(config).(sqliteDbPath := Some(DbFile(contentRoot)))
    {
      connectionString := ConfiguredConnection(config);
      var dbFile := Combine(contentRoot, DefaultDbFile);
      dbContextConnection := Some("Data Source=" + dbFile);
      config := config.(sqliteDbPath := Some(dbFile));
    }
  }

  lemma CombineLacks(a: string, b: string, c: char)
    requires !ContainsChar(a, c) && !ContainsChar(b, c) && c != Sep
    ensures !ContainsChar(Combine(a, b), c)
  {
    var r := Combine(a, b);
    if b != "" && a != "" && !IsPathRooted(b) {
      var m := if EndsWithSep(a) then a else a + [Sep];
      assert r == m + b;
      forall i | 0 <= i < |r| ensures r[i] != c {
        if i < |m| {
          if i < |a| { assert m[i] == a[i]; }
        } else {
          assert r[i] == b[i - |m|];
        }
      }
    }
  }

  /** Text without '=' has no "data source=" in it, in any case. */
  lemma NoEqualsNoKey(v: string)
    requires !ContainsChar(v, '=')
    ensures !ContainsIgnoreCase(v, KeySpaced)
  {
    KeySpacedIsLower();
    var l := LowerAll(v);
    forall i | 0 <= i < |l| ensures l[i] != '=' {
      assert l[i] == Lower(v[i]);
    }
    if Contains(l, KeySpaced) {
      OccurrenceHasChar(l, KeySpaced, 11);
    }
  }

  /** "photoapp.db" is a plain relative file name. */
  lemma DefaultDbFilePlain()
    ensures DefaultDbFile != "" && !IsPathRooted(DefaultDbFile)
    ensures !ContainsChar(DefaultDbFile, '=') && !ContainsChar(DefaultDbFile, ';')
  {
    var p := DefaultDbFile;
    assert p[0] == 'p' && p[1] == 'h';
    forall i | 0 <= i < |p| ensures p[i] != '=' && p[i] != ';' { }
  }

  /** The database file is rooted where the content root is, and holds
      no character that neither holds except the separator. */
  lemma DbFileShape(contentRoot: string, c: char)
    requires IsPathRooted(contentRoot) && !ContainsChar(contentRoot, c) && (c == '=' || c == ';')
    ensures var f := DbFile(contentRoot);
      IsPathRooted(f) && f[0] == contentRoot[0] && !ContainsChar(f, c)
  {
    DefaultDbFilePlain();
    CombineLacks(contentRoot, DefaultDbFile, c);
    CombineRooted(contentRoot, DefaultDbFile);
  }

  /** A rooted path without "data source=" as the setting is the
      database itself. */
  lemma PathSettingResolves(c: Config, h: Host, v: string)
    requires DbSetting(c) == Some(v) && !IsBlank(v) && !ContainsIgnoreCase(v, KeySpaced) && IsPathRooted(v)
    ensures ResolveLocation(c, h) == Location(v, "Data Source=" + v)
  {
    assert Resolve(RootOrBase(h), v) == v;
  }

  /** After start-up, DatabaseBackupController finds the DbContext's file
      whatever the configuration said: SqliteDbPath now holds that rooted
      path, which takes its path branch (it has no "data source="). */
  lemma DatabaseBackupUsesDbFile(c: Config, contentRoot: string, h: Host)
    requires IsPathRooted(contentRoot) && !ContainsChar(contentRoot, '=')
    ensures var f := DbFile(contentRoot);
      ResolveLocation(c.(sqliteDbPath := Some(f)), h) == Location(f, "Data Source=" + f)
  {
    DbFilePath(contentRoot);
    DbFileNoKey(contentRoot);
    PathSettingResolves(c.(sqliteDbPath := Some(DbFile(contentRoot))), h, DbFile(contentRoot));
  }

  /** The database file has no '=' and so no "data source=". */
  lemma DbFileNoKey(contentRoot: string)
    requires IsPathRooted(contentRoot) && !ContainsChar(contentRoot, '=')
    ensures !ContainsIgnoreCase(DbFile(contentRoot), KeySpaced)
  {
    DbFileShape(contentRoot, '=');
    NoEqualsNoKey(DbFile(contentRoot));
  }

  /** The database file is a rooted path, so it is not blank. */
  lemma DbFilePath(contentRoot: string)
    requires IsPathRooted(contentRoot) && !ContainsChar(contentRoot, '=')
    ensures var f := DbFile(contentRoot);
      !IsBlank(f) && IsPathRooted(f)
  {
    var f := DbFile(contentRoot);
    DbFileShape(contentRoot, '=');
    assert !IsWhite(f[0]);
  }

  /** After start-up, BackupController's Export reads the DbContext's file:
      the DbContext's connection string parses back to it. */
  lemma BackupExportUsesDbFile(contentRoot: string, h: Host)
    requires IsPathRooted(contentRoot) && !ContainsChar(contentRoot, ';')
    ensures ExportDataSource(Some("Data Source=" + DbFile(contentRoot)), h) == DbFile(contentRoot)
  {
    DbFileShape(contentRoot, ';');
    ConnectionStringRoundTrip(DbFile(contentRoot), RootOrCwd(h));
  }

  /** A user account: the name and the password hash PasswordHasher
      produced for it. */
  datatype User = User(userName: string, passwordHash: string)

  /** Lines 68-75: the admin account is added only to an empty Users
      table. */
  function Seeded(users: seq<User>, adminHash: string): (r: seq<User>)
    ensures users == [] ==> r == [User("admin", adminHash)]
    ensures users != [] ==> r == users
  {
    if users == [] then [User("admin", adminHash)] else users
  }

  /** Seeding again, on the next start, changes nothing. */
  lemma SeedingIdempotent(users: seq<User>, h1: string, h2: string)
    ensures Seeded(Seeded(users, h1), h2) == Seeded(users, h1)
  { }

  /** The Users table. */
  class UserTable {
    var users: seq<User>

    constructor (users: seq<User>)
      ensures this.users == users
    {
      this.users := users;
    }

    method SeedAdmin(adminHash: string)
      modifies this
      ensures users == Seeded(old(users), adminHash)
    {
      if |users| == 0 {
        users := users + [User("admin", adminHash)];
      }
    }
  }
}
