/** The catalogue listing (PhotosController.Index): the free-text search,
    the exact filters, the ordering by last update and the facet lists
    the filter drop-downs are filled from. The query runs in SQLite, so
    its LIKE and its string equality are modelled as SQLite evaluates
    them. */
module Query {
  import opened Text
  import opened Records

  // ---------------------------------------------------------------- LIKE

  /** SQLite's `v LIKE pat` without an ESCAPE clause: '%' matches any run
      of characters, '_' any single character, and every other character
      itself, with ASCII letters compared case-insensitively. */
  predicate Like(v: string, pat: string)
    decreases |v| + |pat|
  {
    if pat == [] then v == []
    else if pat[0] == '%' then Like(v, pat[1..]) || (v != [] && Like(v[1..], pat))
    else v != [] && (pat[0] == '_' || Lower(pat[0]) == Lower(v[0])) && Like(v[1..], pat[1..])
  }

  /** A search term with no LIKE wildcard in it. */
  predicate NoWildcards(s: string) {
    forall i :: 0 <= i < |s| ==> s[i] != '%' && s[i] != '_'
  }

  /** s matches v case-insensitively at position j. */
  predicate MatchesAt(v: string, s: string, j: int) {
    0 <= j && j + |s| <= |v| && forall i :: 0 <= i < |s| ==> Lower(v[j + i]) == Lower(s[i])
  }

  lemma {:induction false} LikeAnyTail(v: string)
    ensures Like(v, "%")
    decreases |v|
  {
    if v != [] {
      LikeAnyTail(v[1..]);
    }
  }

  /** "s%" matches exactly the values that start with s. */
  lemma {:induction false} LikePrefix(v: string, s: string)
    requires NoWildcards(s)
    ensures Like(v, s + "%") <==> MatchesAt(v, s, 0)
    decreases |s|
  {
    if s == [] {
      assert s + "%" == "%";
      LikeAnyTail(v);
    } else {
      var t := s[1..];
      assert (s + "%")[1..] == t + "%";
      assert (s + "%")[0] == s[0];
      if v != [] {
        LikePrefix(v[1..], t);
        if MatchesAt(v[1..], t, 0) && Lower(s[0]) == Lower(v[0]) {
          forall i | 0 <= i < |s| ensures Lower(v[i]) == Lower(s[i]) {
            if i > 0 { assert v[1..][i - 1] == v[i] && t[i - 1] == s[i]; }
          }
        }
        if MatchesAt(v, s, 0) {
          assert Lower(v[0]) == Lower(s[0]);
          forall i | 0 <= i < |t| ensures Lower(v[1..][i]) == Lower(t[i]) {
            assert v[1..][i] == v[i + 1] && t[i] == s[i + 1];
          }
        }
      }
    }
  }

  /** "%t" matches exactly the values with a suffix that t matches. */
  lemma {:induction false} LikeLeading(v: string, t: string)
    ensures Like(v, "%" + t) <==> exists j :: 0 <= j <= |v| && Like(v[j..], t)
    decreases |v|
  {
    var pat := "%" + t;
    assert pat[1..] == t;
    assert v[0..] == v;
    if v != [] {
      LikeLeading(v[1..], t);
      if exists j :: 0 <= j <= |v[1..]| && Like(v[1..][j..], t) {
        var j :| 0 <= j <= |v[1..]| && Like(v[1..][j..], t);
        assert v[1..][j..] == v[j + 1..];
      }
      if exists j :: 0 <= j <= |v| && Like(v[j..], t) {
        var j :| 0 <= j <= |v| && Like(v[j..], t);
        if j > 0 {
          assert v[1..][j - 1..] == v[j..];
        }
      }
    }
  }

  function Pattern(s: string): string {
    "%" + s + "%"
  }

  /** For a term without wildcards, LIKE '%term%' is case-insensitive
      containment. */
  lemma LikeIsContains(v: string, s: string)
    requires NoWildcards(s)
    ensures Like(v, Pattern(s)) <==> ContainsIgnoreCase(v, s)
  {
    assert Pattern(s) == "%" + (s + "%");
    LikeLeading(v, s + "%");
    var lv := LowerAll(v);
    var ls := LowerAll(s);
    forall j | 0 <= j <= |v| ensures Like(v[j..], s + "%") <==> OccursAt(lv, ls, j) {
      LikePrefix(v[j..], s);
      if MatchesAt(v[j..], s, 0) {
        assert lv[j..j + |s|] == ls by {
          forall i | 0 <= i < |s| ensures lv[j..j + |s|][i] == ls[i] {
            assert v[j..][i] == v[j + i];
          }
        }
      }
      if OccursAt(lv, ls, j) {
        forall i | 0 <= i < |s| ensures Lower(v[j..][i]) == Lower(s[i]) {
          assert lv[j..j + |s|][i] == lv[j + i];
          assert v[j..][i] == v[j + i];
        }
      }
    }
    if ContainsIgnoreCase(v, s) {
      var j := IndexOf(lv, ls).value;
      assert OccursAt(lv, ls, j);
    }
  }

  /** The wildcards in a term stay wildcards: '_' alone matches any value
      that is not empty. */
  lemma UnderscoreMatchesAny(v: string)
    ensures Like(v, Pattern("_")) <==> v != []
  {
    assert Pattern("_") == "%" + "_%";
    LikeLeading(v, "_%");
    if v != [] {
      assert "_%"[1..] == "%";
      LikeAnyTail(v[1..]);
      assert v[0..] == v;
    }
    forall j | 0 <= j <= |v| && Like(v[j..], "_%") ensures v != [] {
    }
  }

  // ------------------------------------------------------------- filters

  /** `f LIKE pat` on a nullable column: NULL matches nothing. */
  predicate LikeField(f: Option<string>, pat: string) {
    f.Some? && Like(f.value, pat)
  }

  /** The search condition for the trimmed term s: LIKE '%s%' on Name,
      OriginalName, Description, Notes or Code. */
  predicate MatchesSearch(p: PhotoRecord, s: string) {
    var pat := Pattern(s);
    LikeField(p.name, pat) || LikeField(p.originalName, pat) || LikeField(p.description, pat)
    || LikeField(p.notes, pat) || Like(p.code, pat)
  }

  predicate ContainsField(f: Option<string>, s: string) {
    f.Some? && ContainsIgnoreCase(f.value, s)
  }

  /** Searching for a term without wildcards keeps a record exactly when
      one of the five searched fields contains the term, ignoring case. */
  lemma SearchIsContains(p: PhotoRecord, s: string)
    requires NoWildcards(s)
    ensures MatchesSearch(p, s) <==>
      ContainsField(p.name, s) || ContainsField(p.originalName, s) || ContainsField(p.description, s)
      || ContainsField(p.notes, s) || ContainsIgnoreCase(p.code, s)
  {
    if p.name.Some? { LikeIsContains(p.name.value, s); }
    if p.originalName.Some? { LikeIsContains(p.originalName.value, s); }
    if p.description.Some? { LikeIsContains(p.description.value, s); }
    if p.notes.Some? { LikeIsContains(p.notes.value, s); }
    LikeIsContains(p.code, s);
  }

  /** A search for "%" keeps every record, whatever its fields hold: Code
      is never null and "%%%" matches any value. */
  lemma PercentKeepsAll(p: PhotoRecord)
    ensures MatchesSearch(p, "%")
  {
    assert Pattern("%")[1..] == "%%";
    assert "%%"[1..] == "%";
    LikeAnyTail(p.code);
  }

  /** The query string of Index; a parameter that is absent is None. */
  datatype Filters = Filters(
    search: Option<string>,
    supplier: Option<string>,
    material: Option<string>,
    kind: Option<string>,
    color: Option<string>,
    name: Option<string>,
    position: Option<string>,
    filler: Option<string>)

  /** An exact filter: applied only when its parameter is not blank, and
      then SQL equality with the parameter as sent (not trimmed, case
      significant); a NULL column equals nothing. */
  predicate Exact(field: Option<string>, param: Option<string>) {
    IsBlankOpt(param) || field == param
  }

  predicate Selected(p: PhotoRecord, f: Filters) {
    (IsBlankOpt(f.search) || MatchesSearch(p, Trim(f.search.value)))
    && Exact(p.supplier, f.supplier) && Exact(p.material, f.material)
    && Exact(p.kind, f.kind) && Exact(p.color, f.color)
    && Exact(p.name, f.name) && Exact(p.position, f.position)
    && Exact(p.filler, f.filler)
  }

  const NoFilters := Filters(None, None, None, None, None, None, None, None)

  /** With no parameter set, every record is listed. */
  lemma NoFiltersSelectAll(p: PhotoRecord)
    ensures Selected(p, NoFilters)
  { }

  /** The filters combine conjunctively: a record passes them all exactly
      when it passes each one set on its own. */
  lemma FiltersConjunctive(p: PhotoRecord, f: Filters)
    ensures Selected(p, f) <==>
      Selected(p, NoFilters.(search := f.search)) && Selected(p, NoFilters.(supplier := f.supplier))
      && Selected(p, NoFilters.(material := f.material)) && Selected(p, NoFilters.(kind := f.kind))
      && Selected(p, NoFilters.(color := f.color)) && Selected(p, NoFilters.(name := f.name))
      && Selected(p, NoFilters.(position := f.position)) && Selected(p, NoFilters.(filler := f.filler))
  { }

  /** The search term is trimmed, but an exact filter is not: a supplier
      parameter with a trailing space matches no record whose supplier is
      stored without it. */
  lemma ExactFilterNotTrimmed(p: PhotoRecord, s: string)
    requires p.supplier == Some(s) && !IsBlank(s)
    ensures !Selected(p, NoFilters.(supplier := Some(s + " ")))
  {
    assert s + " " != s by { assert |s + " "| != |s|; }
    assert !IsBlank(s + " ") by {
      var i :| 0 <= i < |s| && !IsWhite(s[i]);
      assert (s + " ")[i] == s[i];
    }
  }

  /** The records that pass the filters, each as often as it occurs. */
  function Where(photos: seq<PhotoRecord>, f: Filters): (r: seq<PhotoRecord>)
    ensures forall x :: multiset(r)[x] == if Selected(x, f) then multiset(photos)[x] else 0
    decreases |photos|
  {
    if photos == [] then []
    else
      var n := |photos| - 1;
      assert photos == photos[..n] + [photos[n]];
      Where(photos[..n], f) + (if Selected(photos[n], f) then [photos[n]] else [])
  }

  // ------------------------------------------------------------ ordering

  predicate Ascending<T>(s: seq<T>, key: T -> int) {
    forall i, j :: 0 <= i < j < |s| ==> key(s[i]) <= key(s[j])
  }

  function InsertBy<T>(x: T, s: seq<T>, key: T -> int): (r: seq<T>)
    requires Ascending(s, key)
    ensures multiset(r) == multiset(s) + multiset{x} && Ascending(r, key)
    ensures forall y :: y in r ==> y in s || y == x
    decreases |s|
  {
    if s == [] then [x]
    else if key(x) <= key(s[0]) then
      ConsAscending(x, s, key);
      [x] + s
    else
      var rest := InsertBy(x, s[1..], key);
      InsertBelowHead(x, s, key, rest);
      ConsAscending(s[0], rest, key);
      assert s == [s[0]] + s[1..];
      [s[0]] + rest
  }

  /** A head no larger than every later key keeps a list ascending. */
  lemma ConsAscending<T>(h: T, s: seq<T>, key: T -> int)
    requires Ascending(s, key)
    requires s != [] ==> key(h) <= key(s[0])
    ensures Ascending([h] + s, key)
  {
    var r := [h] + s;
    forall i, j | 0 <= i < j < |r| ensures key(r[i]) <= key(r[j]) {
      if i == 0 {
        assert r[j] == s[j - 1];
        if j > 1 { assert key(s[0]) <= key(s[j - 1]); }
      } else {
        assert r[i] == s[i - 1] && r[j] == s[j - 1];
      }
    }
  }

  /** Inserting past the head keeps every element at or above it. */
  lemma InsertBelowHead<T>(x: T, s: seq<T>, key: T -> int, rest: seq<T>)
    requires s != [] && Ascending(s, key) && key(s[0]) < key(x)
    requires forall y :: y in rest ==> y in s[1..] || y == x
    requires rest != []
    ensures key(s[0]) <= key(rest[0])
  {
    var y := rest[0];
    assert y in rest;
    if y != x {
      var k :| 0 <= k < |s[1..]| && s[1..][k] == y;
      assert s[k + 1] == y;
    }
  }

  /** A stable insertion sort on an integer key. */
  function SortBy<T>(s: seq<T>, key: T -> int): (r: seq<T>)
    ensures multiset(r) == multiset(s) && Ascending(r, key)
    decreases |s|
  {
    if s == [] then []
    else
      assert s == [s[0]] + s[1..];
      InsertBy(s[0], SortBy(s[1..], key), key)
  }

  predicate NewestFirst(s: seq<PhotoRecord>) {
    forall i, j :: 0 <= i < j < |s| ==> Instant(s[i].updatedAt) >= Instant(s[j].updatedAt)
  }

  /** OrderByDescending((p: PhotoRecord) => p.UpdatedAt). The order of records updated
      at the same instant is not fixed by the query; this one keeps them
      in table order. */
  function NewestFirstOrder(s: seq<PhotoRecord>): (r: seq<PhotoRecord>)
    ensures multiset(r) == multiset(s) && NewestFirst(r)
  {
    var key := (p: PhotoRecord) => -Instant(p.updatedAt);
    var r := SortBy(s, key);
    assert forall i, j :: 0 <= i < j < |r| ==> key(r[i]) <= key(r[j]);
    r
  }

  // -------------------------------------------------------------- facets

  predicate StrictlyAscending(s: seq<string>) {
    forall i, j :: 0 <= i < j < |s| ==> Less(s[i], s[j])
  }

  /** A strictly ascending list holds no value twice. */
  lemma AscendingDistinct(s: seq<string>, i: int, j: int)
    requires StrictlyAscending(s) && 0 <= i < j < |s|
    ensures s[i] != s[j]
  {
    LessIrreflexive(s[i]);
  }

  function InsertDistinct(x: string, s: seq<string>): (r: seq<string>)
    requires StrictlyAscending(s)
    ensures StrictlyAscending(r)
    ensures forall y :: y in r <==> y in s || y == x
    decreases |s|
  {
    if s == [] then [x]
    else if x == s[0] then s
    else if Less(x, s[0]) then
      assert forall j :: 0 <= j < |s| ==> Less(x, s[j]) by {
        forall j | 0 <= j < |s| ensures Less(x, s[j]) {
          if j > 0 { LessTransitive(x, s[0], s[j]); }
        }
      }
      [x] + s
    else
      LessTotal(x, s[0]);
      var rest := InsertDistinct(x, s[1..]);
      assert forall y :: y in rest ==> Less(s[0], y) by {
        forall y | y in rest ensures Less(s[0], y) {
          if y != x {
            var j :| 0 <= j < |s[1..]| && s[1..][j] == y;
            assert s[j + 1] == y;
          }
        }
      }
      [s[0]] + rest
  }

  /** r is the facet list of a column: the distinct non-empty values it
      holds over the given records, in ascending ordinal order. */
  ghost predicate IsFacet(r: seq<string>, photos: seq<PhotoRecord>, field: PhotoRecord -> Option<string>) {
    StrictlyAscending(r)
    && forall v :: v in r <==> v != "" && exists p :: p in photos && field(p) == Some(v)
  }

  /** Where(!IsNullOrEmpty(x)).Select(x).Distinct().OrderBy(x). */
  function Facet(photos: seq<PhotoRecord>, field: PhotoRecord -> Option<string>): (r: seq<string>)
    ensures IsFacet(r, photos, field)
    decreases |photos|
  {
    if photos == [] then []
    else
      var n := |photos| - 1;
      var pre := Facet(photos[..n], field);
      assert forall p :: p in photos <==> p in photos[..n] || p == photos[n] by {
        assert photos == photos[..n] + [photos[n]];
      }
      var v := field(photos[n]);
      if v.Some? && v.value != "" then InsertDistinct(v.value, pre) else pre
  }

  // --------------------------------------------------------------- Index

  /** The view model Index fills: the listed records and one facet list
      per drop-down. */
  datatype IndexView = IndexView(
    items: seq<PhotoRecord>,
    suppliers: seq<string>,
    materials: seq<string>,
    kinds: seq<string>,
    colors: seq<string>,
    names: seq<string>,
    positions: seq<string>,
    fillers: seq<string>)

  /** Index(search, supplier, ...): the records the filters select, newest
      first, and the facet lists of all records, whatever the filters. */
  function Index(photos: seq<PhotoRecord>, f: Filters): (v: IndexView)
    ensures forall x :: multiset(v.items)[x] == if Selected(x, f) then multiset(photos)[x] else 0
    ensures NewestFirst(v.items)
    ensures IsFacet(v.suppliers, photos, (p: PhotoRecord) => p.supplier) && IsFacet(v.materials, photos, (p: PhotoRecord) => p.material)
    ensures IsFacet(v.kinds, photos, (p: PhotoRecord) => p.kind) && IsFacet(v.colors, photos, (p: PhotoRecord) => p.color)
    ensures IsFacet(v.names, photos, (p: PhotoRecord) => p.name) && IsFacet(v.positions, photos, (p: PhotoRecord) => p.position)
    ensures IsFacet(v.fillers, photos, (p: PhotoRecord) => p.filler)
  {
    var items := Where(photos, f);
    IndexView(NewestFirstOrder(items),
      Facet(photos, (p: PhotoRecord) => p.supplier), Facet(photos, (p: PhotoRecord) => p.material),
      Facet(photos, (p: PhotoRecord) => p.kind), Facet(photos, (p: PhotoRecord) => p.color),
      Facet(photos, (p: PhotoRecord) => p.name), Facet(photos, (p: PhotoRecord) => p.position),
      Facet(photos, (p: PhotoRecord) => p.filler))
  }

  /** The facet lists do not depend on the filters. */
  lemma FacetsIgnoreFilters(photos: seq<PhotoRecord>, f: Filters, g: Filters)
    ensures var a := Index(photos, f); var b := Index(photos, g);
      a.suppliers == b.suppliers && a.materials == b.materials && a.kinds == b.kinds
      && a.colors == b.colors && a.names == b.names && a.positions == b.positions
      && a.fillers == b.fillers
  { }
}
