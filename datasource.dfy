/** Locating the SQLite file: the connection-string parser both backup
    controllers carry (ExtractDataSourceFromConnectionString and
    GetSqliteDataSource) and the database location that
    DatabaseBackupController's constructor derives from configuration. */
module DataSource {
  import opened Text
  import opened Paths
  import opened Hosting

  const KeySpaced: string := "data source="
  const KeyPlain: string := "datasource="
  const DefaultDbFile: string := "photoapp.db"

  /** Where the database file lives and how it is opened. */
  datatype Location = Location(dbPath: string, connString: string)

  /** The value after the key that starts at position start: trimmed, cut
      at the first ';', trimmed again, then stripped of double and then of
      single quotes. */
  function ValueAfter(cs: string, start: nat): (r: string)
    requires start <= |cs|
    ensures !ContainsChar(r, ';')
    ensures r != [] ==> r[0] != '\'' && r[|r| - 1] != '\''
  {
    var rest := Trim(cs[start..]);
    var path := match IndexOf(rest, ";") { case Some(e) => rest[..e] case None => rest };
    SemicolonCut(rest);
    TrimSliceEnds(TrimChar(Trim(path), '"'), x => x == '\'');
    TrimKeepsAbsent(path, IsWhite, ';');
    TrimKeepsAbsent(Trim(path), x => x == '"', ';');
    TrimKeepsAbsent(TrimChar(Trim(path), '"'), x => x == '\'', ';');
    TrimChar(TrimChar(Trim(path), '"'), '\'')
  }

  lemma SemicolonCut(rest: string)
    ensures !ContainsChar(match IndexOf(rest, ";") { case Some(e) => rest[..e] case None => rest }, ';')
  {
    ContainsCharIff(rest, ';');
    match IndexOf(rest, ";") {
      case Some(e) =>
        forall i | 0 <= i < e ensures rest[i] != ';' {
          if rest[i] == ';' { assert OccursAt(rest, ";", i); }
        }
      case None =>
    }
  }

  /** Trimming never brings in a character. */
  lemma TrimKeepsAbsent(s: string, drop: char -> bool, c: char)
    requires !ContainsChar(s, c)
    ensures !ContainsChar(TrimBy(s, drop), c)
  {
    TrimBySlice(s, drop);
    var r := TrimBy(s, drop);
    var lo := |s| - |TrimStartBy(s, drop)|;
    forall i | 0 <= i < |r| ensures r[i] != c {
      assert r[i] == s[lo + i];
    }
  }

  /** The unresolved value of the Data Source key: "data source=" is looked
      for first and "datasource=" only when it is absent, in the lower-cased
      string; None stands for null (blank input or neither key). */
  function RawDataSource(cs: string): (r: Option<string>)
    ensures r.None? <==> IsBlank(cs) || (!Contains(LowerAll(cs), KeySpaced) && !Contains(LowerAll(cs), KeyPlain))
  {
    KeyedValue(cs)
  }

  /** The lookup itself: the spaced key first, then the unspaced one. */
  function KeyedValue(cs: string): Option<string>
  {
    if IsBlank(cs) then None
    else
      match KeyEnd(LowerAll(cs))
      case Some(e) => Some(ValueAfter(cs, e))
      case None => None
  }

  /** Where the value starts in the lower-cased text: after the first
      "data source=", or failing that after the first "datasource=". */
  function KeyEnd(lower: string): (r: Option<nat>)
    ensures r.Some? ==> r.value <= |lower|
  {
    match IndexOf(lower, KeySpaced)
    case Some(i) => Some(i + |KeySpaced|)
    case None =>
      match IndexOf(lower, KeyPlain)
      case Some(i) => Some(i + |KeyPlain|)
      case None => None
  }

  /** A relative value is taken relative to base. */
  function Resolve(base: string, path: string): (r: string)
    ensures IsPathRooted(path) ==> r == path
    ensures IsPathRooted(base) ==> IsPathRooted(r)
  {
    CombineRooted(base, path);
    if IsPathRooted(path) then path else Combine(base, path)
  }

  /** ExtractDataSourceFromConnectionString(cs, base). */
  function ExtractDataSource(cs: string, base: string): (r: Option<string>)
    ensures r.None? <==> RawDataSource(cs).None?
    ensures r.Some? && IsPathRooted(base) ==> IsPathRooted(r.value)
  {
    match RawDataSource(cs)
    case None => None
    case Some(p) => Some(Resolve(base, p))
  }

  /** BackupController.GetSqliteDataSource: the same parser, resolving
      against ContentRootPath ?? current directory. */
  function GetSqliteDataSource(cs: Option<string>, h: Host): (r: Option<string>)
    ensures cs.None? ==> r.None?
  {
    if cs.None? then None else ExtractDataSource(cs.value, RootOrCwd(h))
  }

  /** The two controllers parse a connection string identically when their
      fallback directories agree. */
  lemma ParsersAgree(cs: string, h: Host)
    requires h.contentRoot.Some? || h.baseDir == h.cwd
    ensures GetSqliteDataSource(Some(cs), h) == ExtractDataSource(cs, RootOrBase(h))
  {
  }

  lemma KeySpacedIsLower()
    ensures LowerAll(KeySpaced) == KeySpaced
  {
    var k := KeySpaced;
    assert k == ['d', 'a', 't', 'a', ' ', 's', 'o', 'u', 'r', 'c', 'e', '='];
    forall i | 0 <= i < |k| ensures !('A' <= k[i] <= 'Z') {
      assert 'a' <= k[i] <= 'z' || k[i] == ' ' || k[i] == '=';
    }
    NoUpperIsLower(k);
  }

  lemma NoUpperIsLower(s: string)
    requires forall i :: 0 <= i < |s| ==> !('A' <= s[i] <= 'Z')
    ensures LowerAll(s) == s
  {
    var l := LowerAll(s);
    forall i | 0 <= i < |l| ensures l[i] == s[i] {
      assert l[i] == Lower(s[i]);
    }
  }

  /** DatabaseBackupController's constructor: a blank setting means
      content root\photoapp.db; a setting containing "data source=" (any
      case) is a connection string and is parsed; anything else is a path,
      relative ones resolved against the content root. */
  function ResolveLocation(c: Config, h: Host): (r: Location)
    ensures IsBlankOpt(DbSetting(c)) ==>
      r == Location(Combine(RootOrBase(h), DefaultDbFile), "Data Source=" + Combine(RootOrBase(h), DefaultDbFile))
    ensures !IsBlankOpt(DbSetting(c)) && ContainsIgnoreCase(DbSetting(c).value, KeySpaced) ==>
      r.connString == DbSetting(c).value && Some(r.dbPath) == ExtractDataSource(r.connString, RootOrBase(h))
    ensures !IsBlankOpt(DbSetting(c)) && !ContainsIgnoreCase(DbSetting(c).value, KeySpaced) ==>
      r.dbPath == Resolve(RootOrBase(h), DbSetting(c).value) && r.connString == "Data Source=" + r.dbPath
    ensures IsPathRooted(RootOrBase(h)) ==> IsPathRooted(r.dbPath)
  {
    CombineRooted(RootOrBase(h), DefaultDbFile);
    var cfg := DbSetting(c);
    var root := RootOrBase(h);
    if IsBlankOpt(cfg) then
      var p := Combine(root, DefaultDbFile);
      Location(p, "Data Source=" + p)
    else if ContainsIgnoreCase(cfg.value, KeySpaced) then
      KeyedSettingParses(cfg.value, root);
      Location(ExtractDataSource(cfg.value, root).value, cfg.value)
    else
      var p := Resolve(root, cfg.value);
      Location(p, "Data Source=" + p)
  }

  /** A setting that mentions "data source=" in any case parses to a
      path. */
  lemma KeyedSettingParses(v: string, base: string)
    requires !IsBlank(v) && ContainsIgnoreCase(v, KeySpaced)
    ensures ExtractDataSource(v, base).Some?
  {
    KeySpacedIsLower();
  }

  /** A value with no ';' that needs no white-space trimming. */
  predicate Solid(p: string) {
    p != [] && !ContainsChar(p, ';') && !IsWhite(p[0]) && !IsWhite(p[|p| - 1])
  }

  /** A value that needs no trimming or unquoting. */
  predicate PlainValue(p: string) {
    Solid(p) && p[0] != '"' && p[|p| - 1] != '"' && p[0] != '\'' && p[|p| - 1] != '\''
  }

  /** The spaced key at the very start is found there. */
  lemma KeyAtFront(x: string)
    ensures !IsBlank("Data Source=" + x)
    ensures IndexOf(LowerAll("Data Source=" + x), KeySpaced) == Some(0)
  {
    var cs := "Data Source=" + x;
    var lower := LowerAll(cs);
    assert lower[..|KeySpaced|] == KeySpaced by {
      forall i | 0 <= i < |KeySpaced| ensures lower[i] == KeySpaced[i] {
        assert cs[i] == "Data Source="[i];
      }
    }
    assert OccursAt(lower, KeySpaced, 0);
    assert !IsWhite(cs[0]);
  }

  /** Trimming p + tail keeps p whole when p starts and ends with a
      non-blank and tail is empty or starts with ';'. */
  lemma TrimPlainTail(p: string, tail: string)
    requires Solid(p)
    requires tail == "" || tail[0] == ';'
    ensures var rest := Trim(p + tail);
      (|p| <= |rest| && rest[..|p|] == p
       && (tail == "" ==> rest == p) && (tail != "" ==> |p| < |rest| && rest[|p|] == ';'))
  {
    var after := p + tail;
    assert after[0] == p[0];
    TrimByKeptStart(after, IsWhite);
    TrimEndKeeps(after, IsWhite, |p| - 1);
    if tail != "" { TrimEndKeeps(after, IsWhite, |p|); }
  }

  /** The first ';' of a text that starts with a plain value and then
      has ';' is right after the value; without one there is none. */
  lemma CutAtPlain(p: string, rest: string)
    requires Solid(p) && |p| <= |rest| && rest[..|p|] == p
    requires rest == p || (|p| < |rest| && rest[|p|] == ';')
    ensures (match IndexOf(rest, ";") { case Some(e) => rest[..e] case None => rest }) == p
  {
    ContainsCharIff(p, ';');
    forall j | 0 <= j < |p| ensures !OccursAt(rest, ";", j) {
      assert rest[j] == p[j];
    }
    if rest != p {
      assert OccursAt(rest, ";", |p|);
    }
  }

  /** "Data Source=" followed by a plain value reads back that value,
      whatever follows a ';' after it: later keys are ignored. */
  lemma {:induction false} LeadingKeyValue(p: string, tail: string)
    requires PlainValue(p)
    requires tail == "" || tail[0] == ';'
    ensures RawDataSource("Data Source=" + p + tail) == Some(p)
  {
    var cs := "Data Source=" + p + tail;
    assert cs == "Data Source=" + (p + tail);
    KeyAtFront(p + tail);
    assert cs[|KeySpaced|..] == p + tail;
    TrimPlainTail(p, tail);
    CutAtPlain(p, Trim(p + tail));
    TrimByNoop(p, IsWhite);
    TrimByNoop(p, x => x == '"');
    TrimByNoop(p, x => x == '\'');
    assert ValueAfter(cs, |KeySpaced|) == p;
    SpacedKeyFound(cs, 0);
  }

  /** The first "data source=", in any case, decides wherever it stands:
      keys before it, an earlier "datasource=" among them, do not matter,
      and its value is read from right after it. */
  lemma {:induction false} SpacedKeyWins(cs: string, i: nat)
    requires OccursAt(LowerAll(cs), KeySpaced, i)
    requires forall j :: 0 <= j < i ==> !OccursAt(LowerAll(cs), KeySpaced, j)
    ensures i + |KeySpaced| <= |cs|
    ensures RawDataSource(cs) == Some(ValueAfter(cs, i + |KeySpaced|))
  {
    FirstKeyCharNotWhite(cs, KeySpaced, i);
    FirstOccurrence(LowerAll(cs), KeySpaced, i);
    SpacedKeyFound(cs, i);
  }

  /** A key starting with 'd' found at i, in the lower-cased text, makes
      the text non-blank. */
  lemma {:induction false} FirstKeyCharNotWhite(cs: string, key: string, i: nat)
    requires key != [] && key[0] == 'd' && OccursAt(LowerAll(cs), key, i)
    ensures i + |key| <= |cs| && !IsBlank(cs)
  {
    var lower := LowerAll(cs);
    KeyHead(lower, key, i);
    assert Lower(cs[i]) == 'd';
    LowerDNotWhite(cs[i]);
    NotBlankAt(cs, i);
  }

  lemma {:induction false} SpacedKeyFound(cs: string, i: nat)
    requires !IsBlank(cs) && IndexOf(LowerAll(cs), KeySpaced) == Some(i)
    ensures RawDataSource(cs) == Some(ValueAfter(cs, i + |KeySpaced|))
  {
    SpacedKeyed(cs, i);
  }

  lemma {:induction false} SpacedKeyed(cs: string, i: nat)
    requires !IsBlank(cs) && IndexOf(LowerAll(cs), KeySpaced) == Some(i)
    ensures KeyedValue(cs) == Some(ValueAfter(cs, i + |KeySpaced|))
  {
    SpacedKeyEnd(LowerAll(cs), i);
    KeyedAt(cs, i + |KeySpaced|);
  }

  lemma {:induction false} SpacedKeyEnd(lower: string, i: nat)
    requires IndexOf(lower, KeySpaced) == Some(i)
    ensures KeyEnd(lower) == Some(i + |KeySpaced|)
  {
  }

  lemma {:induction false} PlainKeyEnd(lower: string, i: nat)
    requires IndexOf(lower, KeySpaced).None? && IndexOf(lower, KeyPlain) == Some(i)
    ensures KeyEnd(lower) == Some(i + |KeyPlain|)
  {
  }

  lemma {:induction false} KeyedAt(cs: string, e: nat)
    requires !IsBlank(cs) && KeyEnd(LowerAll(cs)) == Some(e)
    ensures e <= |cs| && KeyedValue(cs) == Some(ValueAfter(cs, e))
  {
  }

  lemma {:induction false} PlainKeyFound(cs: string, i: nat)
    requires !IsBlank(cs) && IndexOf(LowerAll(cs), KeySpaced).None? && IndexOf(LowerAll(cs), KeyPlain) == Some(i)
    ensures RawDataSource(cs) == Some(ValueAfter(cs, i + |KeyPlain|))
  {
    PlainKeyed(cs, i);
  }

  lemma {:induction false} PlainKeyed(cs: string, i: nat)
    requires !IsBlank(cs) && IndexOf(LowerAll(cs), KeySpaced).None? && IndexOf(LowerAll(cs), KeyPlain) == Some(i)
    ensures KeyedValue(cs) == Some(ValueAfter(cs, i + |KeyPlain|))
  {
    PlainKeyEnd(LowerAll(cs), i);
    KeyedAt(cs, i + |KeyPlain|);
  }

  /** An occurrence with none before it is the one IndexOf finds. */
  lemma {:induction false} FirstOccurrence(s: string, key: string, i: nat)
    requires OccursAt(s, key, i) && forall j :: 0 <= j < i ==> !OccursAt(s, key, j)
    ensures IndexOf(s, key) == Some(i)
  {
    var r := IndexOf(s, key);
    assert r.Some?;
  }

  lemma {:induction false} KeyHead(s: string, key: string, i: nat)
    requires key != [] && OccursAt(s, key, i)
    ensures i < |s| && s[i] == key[0]
  {
    assert s[i..i + |key|][0] == s[i];
  }

  lemma {:induction false} NotBlankAt(cs: string, i: nat)
    requires i < |cs| && !IsWhite(cs[i])
    ensures !IsBlank(cs)
  {
  }

  lemma LowerDNotWhite(c: char)
    requires Lower(c) == 'd'
    ensures !IsWhite(c)
  {
    assert c == 'd' || c == 'D';
  }

  /** Without "data source=", the first "datasource=", in any case,
      decides, and its value is read from right after it. */
  lemma {:induction false} PlainKeyOtherwise(cs: string, i: nat)
    requires !Contains(LowerAll(cs), KeySpaced)
    requires OccursAt(LowerAll(cs), KeyPlain, i)
    requires forall j :: 0 <= j < i ==> !OccursAt(LowerAll(cs), KeyPlain, j)
    ensures i + |KeyPlain| <= |cs|
    ensures RawDataSource(cs) == Some(ValueAfter(cs, i + |KeyPlain|))
  {
    FirstKeyCharNotWhite(cs, KeyPlain, i);
    FirstOccurrence(LowerAll(cs), KeyPlain, i);
    PlainKeyFound(cs, i);
  }

  /** A solid value before an optional ';' is read whole. */
  lemma {:induction false} SolidValue(cs: string, start: nat, v: string, tail: string)
    requires start <= |cs| && cs[start..] == v + tail
    requires Solid(v) && (tail == "" || tail[0] == ';')
    ensures var rest := Trim(cs[start..]);
      Trim(match IndexOf(rest, ";") { case Some(e) => rest[..e] case None => rest }) == v
  {
    TrimPlainTail(v, tail);
    CutAtPlain(v, Trim(v + tail));
    TrimByNoop(v, IsWhite);
  }

  /** A plain value reads back as itself. */
  lemma {:induction false} PlainValueAfter(cs: string, start: nat, p: string, tail: string)
    requires start <= |cs| && cs[start..] == p + tail
    requires PlainValue(p) && (tail == "" || tail[0] == ';')
    ensures ValueAfter(cs, start) == p
  {
    SolidValue(cs, start, p, tail);
    TrimByNoop(p, x => x == '"');
    TrimByNoop(p, x => x == '\'');
  }

  /** Stripping a character c from both ends of c + p + c gives p back
      when p does not start or end with c. */
  lemma {:induction false} StripPair(p: string, c: char)
    requires p != [] && p[0] != c && p[|p| - 1] != c
    ensures TrimChar([c] + p + [c], c) == p
  {
    var a := [c] + p + [c];
    var drop := x => x == c;
    assert LeadEnd(a, drop, 1) == 1;
    assert LeadEnd(a, drop, 0) == 1;
    assert TrailEnd(a, drop, 1, |a| - 1) == |a| - 1;
    assert TrailEnd(a, drop, 1, |a|) == |a| - 1;
    assert a[1..|a| - 1] == p;
  }

  /** A value inside double or single quotes reads back without them.
      The trims come in a fixed order, white space first, then double
      quotes, then single quotes, each once: white space inside the quotes
      stays, and so do double quotes inside single ones ('"x"' reads as
      "x" with its double quotes), while single quotes inside double ones
      are stripped as well. */
  lemma {:induction false} QuotedValueAfter(cs: string, start: nat, p: string, q: char, tail: string)
    requires q == '"' || q == '\''
    requires start <= |cs| && cs[start..] == [q] + p + [q] + tail
    requires p != [] && !ContainsChar(p, ';') && p[0] != q && p[|p| - 1] != q
    requires q == '"' ==> p[0] != '\'' && p[|p| - 1] != '\''
    requires tail == "" || tail[0] == ';'
    ensures ValueAfter(cs, start) == p
  {
    var v := [q] + p + [q];
    assert v[0] == q && v[|v| - 1] == q;
    assert forall k :: 0 <= k < |p| ==> v[k + 1] == p[k];
    assert !ContainsChar(v, ';');
    SolidValue(cs, start, v, tail);
    StripPair(p, q);
    if q == '"' {
      TrimByNoop(p, x => x == '\'');
    } else {
      TrimByNoop(v, x => x == '"');
    }
  }

  /** "Data Source=" after keys that hold no space is found where it
      stands, and its plain value, before an optional ';', is read back:
      "Mode=ReadOnly;Data Source=x.db" reads x.db, and
      "DataSource=a.db;Data Source=b.db" reads b.db, the spaced key
      winning over an earlier unspaced one. */
  lemma {:induction false} SpacedKeyAfter(pre: string, p: string, tail: string)
    requires !ContainsChar(pre, ' ')
    requires PlainValue(p) && (tail == "" || tail[0] == ';')
    ensures RawDataSource(pre + "Data Source=" + p + tail) == Some(p)
  {
    var cs := pre + "Data Source=" + p + tail;
    var i := |pre|;
    assert cs[..i] == pre && cs[i..i + 12] == "Data Source=" && cs[i + 12..] == p + tail;
    KeyStandsAt(cs, i);
    NoKeyBefore(cs, pre);
    SpacedKeyWins(cs, i);
    PlainValueAfter(cs, i + |KeySpaced|, p, tail);
  }

  /** "Data Source=" at i is "data source=" there once lower-cased. */
  lemma {:induction false} KeyStandsAt(cs: string, i: nat)
    requires i + 12 <= |cs| && cs[i..i + 12] == "Data Source="
    ensures OccursAt(LowerAll(cs), KeySpaced, i)
  {
    var lower := LowerAll(cs);
    var x := cs[i + 12..];
    assert cs[i..] == "Data Source=" + x;
    KeyAtFront(x);
    var l2 := LowerAll(cs[i..]);
    assert l2[0..12] == KeySpaced;
    LowerSuffix(cs, i);
    assert lower[i..i + 12] == l2[0..12];
  }

  lemma {:induction false} LowerSuffix(s: string, i: nat)
    requires i <= |s|
    ensures LowerAll(s[i..]) == LowerAll(s)[i..]
  {
    assert forall k :: 0 <= k < |s| - i ==> s[i..][k] == s[i + k];
  }

  /** A space-free prefix holds no start of "data source=". */
  lemma {:induction false} NoKeyBefore(cs: string, pre: string)
    requires !ContainsChar(pre, ' ') && |pre| + 12 <= |cs|
    requires cs[..|pre|] == pre && cs[|pre|..|pre| + 12] == "Data Source="
    ensures forall j :: 0 <= j < |pre| ==> !OccursAt(LowerAll(cs), KeySpaced, j)
  {
    var lower := LowerAll(cs);
    forall j | 0 <= j < |pre| ensures !OccursAt(lower, KeySpaced, j) {
      SpaceFree(cs, pre, j + 4);
      assert KeySpaced[4] == ' ';
      assert lower[j..j + |KeySpaced|][4] == lower[j + 4];
    }
  }

  /** Before the key's space, at position |pre| + 4, the lower-cased text
      has no space. */
  lemma {:induction false} SpaceFree(cs: string, pre: string, k: nat)
    requires !ContainsChar(pre, ' ') && |pre| + 12 <= |cs|
    requires cs[..|pre|] == pre && cs[|pre|..|pre| + 12] == "Data Source="
    requires k < |pre| + 4
    ensures LowerAll(cs)[k] != ' '
  {
    if k < |pre| {
      assert cs[k] == cs[..|pre|][k];
    } else {
      assert cs[k] == cs[|pre|..|pre| + 12][k - |pre|];
    }
  }

  /** The connection string a path is turned into reads back as that path. */
  lemma ConnectionStringRoundTrip(p: string, base: string)
    requires PlainValue(p) && IsPathRooted(p)
    ensures ExtractDataSource("Data Source=" + p, base) == Some(p)
  {
    LeadingKeyValue(p, "");
    assert "Data Source=" + p + "" == "Data Source=" + p;
  }

  /** An empty value ("Data Source=;") resolves to the base directory
      itself rather than being rejected. */
  lemma EmptyValueIsBase(tail: string, base: string)
    ensures ExtractDataSource("Data Source=" + ";" + tail, base) == Some(base)
  {
    var x := ";" + tail;
    AppendAssoc("Data Source=", ";", tail);
    var cs := "Data Source=" + x;
    KeyAtFront(x);
    assert cs[|KeySpaced|] == x[0];
    ValueAfterSemicolon(cs, |KeySpaced|);
    SpacedKeyFound(cs, 0);
    assert RawDataSource(cs) == Some("");
    assert !IsPathRooted("");
    assert ExtractDataSource(cs, base) == Some(Combine(base, ""));
  }

  /** A value that starts with ';' is empty. */
  lemma ValueAfterSemicolon(cs: string, start: nat)
    requires start < |cs| && cs[start] == ';'
    ensures ValueAfter(cs, start) == ""
  {
    var after := cs[start..];
    assert after[0] == ';';
    TrimByKeptStart(after, IsWhite);
    TrimEndKeeps(after, IsWhite, 0);
    var rest := Trim(after);
    assert rest[0] == after[0];
    assert OccursAt(rest, ";", 0);
    assert IndexOf(rest, ";") == Some(0);
    assert rest[..0] == "";
  }

  /** Text without a space has no "data source=" in it, in any case. */
  lemma {:induction false} NoSpaceNoKey(v: string)
    requires !ContainsChar(v, ' ')
    ensures !ContainsIgnoreCase(v, KeySpaced)
  {
    KeySpacedIsLower();
    var l := LowerAll(v);
    forall i | 0 <= i < |l| ensures l[i] != ' ' {
      assert l[i] == Lower(v[i]);
    }
    assert KeySpaced[4] == ' ';
    if Contains(l, KeySpaced) {
      OccurrenceHasChar(l, KeySpaced, 4);
    }
  }

  /** "DataSource=..." without the space does not make the constructor
      treat the setting as a connection string: the whole text becomes a
      file path, although the parser itself would accept the key. */
  lemma {:induction false} UnspacedKeyIsPath(c: Config, h: Host)
    requires DbSetting(c).Some?
    requires !ContainsChar(DbSetting(c).value, ' ') && Contains(LowerAll(DbSetting(c).value), KeyPlain)
    ensures ResolveLocation(c, h).dbPath == Resolve(RootOrBase(h), DbSetting(c).value)
    ensures ExtractDataSource(DbSetting(c).value, RootOrBase(h)).Some?
  {
    var v := DbSetting(c).value;
    OccurrenceHasChar(LowerAll(v), KeyPlain, 0);
    var i :| 0 <= i < |LowerAll(v)| && LowerAll(v)[i] == KeyPlain[0];
    assert !IsWhite(v[i]);
    NoSpaceNoKey(v);
  }
}
