/** System.IO.Path on Windows, the platform the application targets:
    '\' is the directory separator and '/' the alternative one, and a
    drive letter followed by ':' roots a path. Normalisation by
    Path.GetFullPath (folding "." and "..") is not modelled. */
module Paths {
  import opened Text

  const Sep: char := '\\'
  const AltSep: char := '/'

  predicate IsSep(c: char) { c == Sep || c == AltSep }

  predicate IsDriveLetter(c: char) { 'a' <= c <= 'z' || 'A' <= c <= 'Z' }

  /** Path.IsPathRooted. */
  predicate IsPathRooted(p: string) {
    (|p| >= 1 && IsSep(p[0])) || (|p| >= 2 && IsDriveLetter(p[0]) && p[1] == ':')
  }

  predicate EndsWithSep(p: string) { |p| > 0 && IsSep(p[|p| - 1]) }

  /** Path.Combine(a, b): an empty part yields the other, a rooted second
      part replaces the first, otherwise a separator is put between them
      unless the first already ends with one. */
  function Combine(a: string, b: string): (r: string)
    ensures b == "" ==> r == a
    ensures a == "" ==> r == b
    ensures b != "" && IsPathRooted(b) ==> r == b
    ensures a != "" || b != "" ==> r != ""
  {
    if b == "" then a
    else if a == "" then b
    else if IsPathRooted(b) then b
    else if EndsWithSep(a) then a + b
    else a + [Sep] + b
  }

  /** Joining onto a rooted directory keeps the path rooted. */
  lemma CombineRooted(a: string, b: string)
    ensures IsPathRooted(a) ==> IsPathRooted(Combine(a, b))
  {
    var r := Combine(a, b);
    if IsPathRooted(a) && b != "" && !IsPathRooted(b) && a != "" {
      assert r[..|a|] == a;
      assert r[0] == a[0];
      if |a| >= 2 { assert r[1] == a[1]; }
    }
  }

  /** p lies strictly inside directory d. */
  predicate Under(p: string, d: string) {
    |d| + 1 < |p| && p[..|d| + 1] == d + [Sep]
  }

  /** Path.GetRelativePath(d, p) for a p inside d. */
  function Relative(p: string, d: string): string
    requires Under(p, d)
  {
    p[|d| + 1..]
  }

  lemma UnderRelative(p: string, d: string)
    requires Under(p, d)
    ensures p == d + [Sep] + Relative(p, d)
  {
    assert p == p[..|d| + 1] + p[|d| + 1..];
  }

  /** A name joined onto a directory that does not end with a separator
      lies inside it, and the name is its relative path. */
  lemma CombineUnder(d: string, name: string)
    requires d != "" && !EndsWithSep(d)
    requires name != "" && !IsPathRooted(name)
    ensures Combine(d, name) == d + [Sep] + name
    ensures Under(Combine(d, name), d) && Relative(Combine(d, name), d) == name
  {
    var p := d + [Sep] + name;
    assert p[..|d| + 1] == d + [Sep];
    assert p[|d| + 1..] == name;
  }

  /** Inside a subdirectory is inside the directory. */
  lemma UnderTransitive(p: string, d: string, name: string)
    requires d != "" && !EndsWithSep(d) && name != "" && !IsPathRooted(name)
    requires Under(p, Combine(d, name))
    ensures Under(p, d)
  {
    CombineUnder(d, name);
    var c := d + [Sep] + name;
    assert p[..|c| + 1] == c + [Sep];
    assert p[..|d| + 1] == (c + [Sep])[..|d| + 1];
    assert (c + [Sep])[..|d| + 1] == d + [Sep];
  }

  /** A non-empty name after a directory and a separator lies inside
      the directory, and is its relative path. */
  lemma UnderJoin(d: string, rel: string)
    requires rel != ""
    ensures Under(d + [Sep] + rel, d) && Relative(d + [Sep] + rel, d) == rel
  {
    var p := d + [Sep] + rel;
    assert p[..|d| + 1] == d + [Sep];
    assert p[|d| + 1..] == rel;
  }

  /** Inside a folder that lies inside another is inside that other. */
  lemma UnderNested(p: string, c: string, a: string)
    requires Under(p, c) && Under(c, a)
    ensures Under(p, a)
  {
    assert p[..|a| + 1] == p[..|c| + 1][..|a| + 1];
    assert c[..|a| + 1] == (c + [Sep])[..|a| + 1];
  }

  /** Index of the last separator strictly before position i, if any. */
  function LastSepBefore(p: string, i: nat): (r: Option<nat>)
    requires i <= |p|
    ensures r.Some? ==> r.value < i && IsSep(p[r.value])
    ensures r.Some? ==> forall k :: r.value < k < i ==> !IsSep(p[k])
    ensures r.None? ==> forall k :: 0 <= k < i ==> !IsSep(p[k])
  {
    if i == 0 then None else if IsSep(p[i - 1]) then Some(i - 1) else LastSepBefore(p, i - 1)
  }

  /** Path.GetFileName: the part after the last separator. */
  function GetFileName(p: string): (r: string)
    ensures forall k :: 0 <= k < |r| ==> !IsSep(r[k])
    ensures |r| <= |p| && r == p[|p| - |r|..]
    ensures |r| < |p| ==> IsSep(p[|p| - |r| - 1])
  {
    match LastSepBefore(p, |p|)
    case None => p
    case Some(k) => p[k + 1..]
  }

  /** Path.GetExtension: from the last '.' of the file name to the end, or
      "" when the name has no '.' or ends with it. It never yields null,
      so a caller's "?? default" never applies. */
  function GetExtension(p: string): (r: string)
    ensures r == "" || (r[0] == '.' && |r| >= 2)
  {
    var name := GetFileName(p);
    match LastDot(name, |name|)
    case None => ""
    case Some(k) => if k == |name| - 1 then "" else name[k..]
  }

  function LastDot(s: string, i: nat): (r: Option<nat>)
    requires i <= |s|
    ensures r.Some? ==> r.value < i && s[r.value] == '.'
  {
    if i == 0 then None else if s[i - 1] == '.' then Some(i - 1) else LastDot(s, i - 1)
  }

  /** Replace('\\', '/'), used to turn OS paths into archive entry names. */
  function ToSlash(s: string): string { ReplaceChar(s, Sep, AltSep) }

  /** Replace('/', '\\'), how the OS reads an archive entry name. */
  function ToBackslash(s: string): string { ReplaceChar(s, AltSep, Sep) }

  lemma BackslashSlash(s: string)
    requires !ContainsChar(s, AltSep)
    ensures ToBackslash(ToSlash(s)) == s
  {
    var r := ToBackslash(ToSlash(s));
    assert |r| == |s|;
    forall i | 0 <= i < |s| ensures r[i] == s[i] {
      assert s[i] != AltSep;
    }
  }

  /** A name without separators reads back only from itself. */
  lemma ToBackslashPlain(x: string, name: string)
    requires forall k :: 0 <= k < |name| ==> !IsSep(name[k])
    requires ToBackslash(x) == name
    ensures x == name
  {
    assert |x| == |name|;
    forall i | 0 <= i < |x| ensures x[i] == name[i] {
      assert ToBackslash(x)[i] == name[i];
    }
  }

  /** A path's segments contain "..", so it climbs out of its base. */
  predicate ClimbsOut(p: string) {
    var parts := Split(ToBackslash(p), Sep);
    exists k :: 0 <= k < |parts| && parts[k] == ".."
  }

  // ------------------------------------------- the uploads folder's name

  /** "uploads" is made of lower-case letters. */
  lemma UploadsLetters()
    ensures forall i :: 0 <= i < |"uploads"| ==> 'a' <= "uploads"[i] <= 'z'
  {
    var u := "uploads";
    assert u == ['u', 'p', 'l', 'o', 'a', 'd', 's'];
  }

  lemma UploadsSlash()
    ensures "uploads/" == "uploads" + [AltSep]
  {
    assert "uploads/" == ['u', 'p', 'l', 'o', 'a', 'd', 's', '/'];
  }

  lemma UploadsBackslash()
    ensures "uploads\\" == "uploads" + [Sep]
  {
    assert "uploads\\" == ['u', 'p', 'l', 'o', 'a', 'd', 's', '\\'];
  }

  /** The uploads prefix of an archive entry name, with either separator. */
  lemma UploadsPrefixes()
    ensures ToBackslash("uploads/") == "uploads" + [Sep]
    ensures ToSlash("uploads" + [Sep]) == "uploads/"
  {
    UploadsLetters();
    UploadsSlash();
    ReplaceCharNoop("uploads", AltSep, Sep);
    ReplaceCharNoop("uploads", Sep, AltSep);
    ReplaceCharAppend("uploads", [AltSep], AltSep, Sep);
    ReplaceCharAppend("uploads", [Sep], Sep, AltSep);
  }
}
