/** The file system as the controllers use it through System.IO: files
    keyed by full path, explicitly created directories, and the recursive
    directory copy both backup controllers define (CopyDirectory). Paths
    are compared as written; relative paths are not resolved against the
    current directory. */
module FileStore {
  import opened Text
  import opened Paths

  newtype byte = x: int | 0 <= x < 256
  type Bytes = seq<byte>

  /** A snapshot of the file system. A directory exists when it was created
      or when something lies inside it. */
  datatype Disk = Disk(files: map<string, Bytes>, dirs: set<string>)

  /** Path p is present in both snapshots or in neither, with the same
      contents. */
  predicate SameAt(a: Disk, b: Disk, p: string) {
    (p in a.files <==> p in b.files) && (p in a.files ==> a.files[p] == b.files[p])
  }

  predicate DirExists(d: Disk, p: string) {
    p in d.dirs || (exists f :: f in d.files && Under(f, p)) || (exists x :: x in d.dirs && Under(x, p))
  }

  /** File.WriteAllBytes / File.Create followed by a full write. */
  function WriteFile(d: Disk, p: string, b: Bytes): (r: Disk)
    ensures p in r.files && r.files[p] == b && r.dirs == d.dirs
    ensures forall q :: q != p ==> (q in r.files <==> q in d.files)
    ensures forall q :: q != p && q in d.files ==> r.files[q] == d.files[q]
  {
    d.(files := d.files[p := b])
  }

  /** File.Delete: removing a file that is not there is no error. */
  function DeleteFile(d: Disk, p: string): (r: Disk)
    ensures p !in r.files && r.dirs == d.dirs
    ensures forall q :: q != p ==> (q in r.files <==> q in d.files)
    ensures forall q :: q != p && q in d.files ==> r.files[q] == d.files[q]
  {
    d.(files := d.files - {p})
  }

  /** File.Copy(src, dst, overwrite: true). */
  function CopyFile(d: Disk, src: string, dst: string): (r: Disk)
    requires src in d.files
    ensures dst in r.files && r.files[dst] == d.files[src]
    ensures r.dirs == d.dirs && r.files.Keys == d.files.Keys + {dst}
    ensures forall q :: q in d.files && q != dst ==> r.files[q] == d.files[q]
  {
    WriteFile(d, dst, d.files[src])
  }

  /** Directory.CreateDirectory: creating an existing directory is no error. */
  function MakeDir(d: Disk, p: string): (r: Disk)
    ensures DirExists(r, p) && r.files == d.files
  {
    d.(dirs := d.dirs + {p})
  }

  /** `if (!Directory.Exists(p)) Directory.CreateDirectory(p)`. */
  function EnsureDir(d: Disk, p: string): (r: Disk)
    ensures DirExists(r, p) && r.files == d.files
  {
    if DirExists(d, p) then d else MakeDir(d, p)
  }

  /** Directory.Delete(p, recursive: true): p and everything inside it. */
  function DeleteTree(d: Disk, p: string): (r: Disk)
    ensures forall f :: f in r.files <==> f in d.files && !Under(f, p)
    ensures forall f :: f in r.files ==> r.files[f] == d.files[f]
    ensures !DirExists(r, p)
  {
    Disk(map f | f in d.files && !Under(f, p) :: d.files[f],
         set x | x in d.dirs && x != p && !Under(x, p))
  }

  /** Directory.Delete(p, recursive: true) when it throws part-way (a
      file inside is locked, say): the files of the tree it reached,
      those in removed, are gone, every other file stays, and the
      directories are left as they were. */
  function DeleteTreePart(d: Disk, p: string, removed: set<string>): (r: Disk)
    ensures forall f :: f in r.files <==> f in d.files && !(Under(f, p) && f in removed)
    ensures forall f :: f in r.files ==> r.files[f] == d.files[f]
    ensures r.dirs == d.dirs
  {
    d.(files := map f | f in d.files && !(Under(f, p) && f in removed) :: d.files[f])
  }

  /** Where CopyDirectory puts a file or directory of the source tree:
      every occurrence of the source directory's text in the path is
      replaced by the target's (String.Replace), not only the leading one. */
  function Dest(f: string, source: string, target: string): string
    requires |source| > 0
  {
    ReplaceAll(f, source, target)
  }

  /** The files loop of CopyDirectory over the listing Directory.GetFiles
      returned, applied to the file contents. */
  function CopyFiles(files: map<string, Bytes>, listing: seq<string>, source: string, target: string): map<string, Bytes>
    requires |source| > 0
    decreases |listing|
  {
    if listing == [] then files
    else
      var pre := CopyFiles(files, listing[..|listing| - 1], source, target);
      var f := listing[|listing| - 1];
      if f in pre then pre[Dest(f, source, target) := pre[f]] else pre
  }

  /** The directories loop of CopyDirectory over Directory.GetDirectories. */
  function CreatedDirs(dirListing: seq<string>, source: string, target: string): set<string>
    requires |source| > 0
    decreases |dirListing|
  {
    if dirListing == [] then {}
    else
      CreatedDirs(dirListing[..|dirListing| - 1], source, target)
      + {Dest(dirListing[|dirListing| - 1], source, target)}
  }

  /** CopyDirectory(source, target): first every listed subdirectory is
      created at its destination, then every listed file is copied to its
      destination with overwrite. A file's parent directory exists as soon
      as the file does, so creating it explicitly is not recorded. */
  function CopyTree(d: Disk, source: string, target: string, dirListing: seq<string>, listing: seq<string>): Disk
    requires |source| > 0
  {
    Disk(CopyFiles(d.files, listing, source, target), d.dirs + CreatedDirs(dirListing, source, target))
  }

  /** What Directory.GetFiles(source, "*", AllDirectories) returns: every
      file inside source, each once. */
  predicate IsListing(files: map<string, Bytes>, source: string, listing: seq<string>) {
    (forall i :: 0 <= i < |listing| ==> listing[i] in files && Under(listing[i], source))
    && (forall f :: f in files && Under(f, source) ==> f in listing)
    && (forall i, j :: 0 <= i < j < |listing| ==> listing[i] != listing[j])
  }

  /** Copying files one after another: every listed file ends up at its
      destination with its original contents, provided no destination is
      itself a listed file and no two destinations coincide; every other
      file keeps its contents, and nothing is removed. */
  lemma {:induction false} CopyFilesEffect(files: map<string, Bytes>, listing: seq<string>, source: string, target: string)
    requires |source| > 0
    requires forall i :: 0 <= i < |listing| ==> listing[i] in files
    requires forall i, j :: 0 <= i < |listing| && 0 <= j < |listing| ==> Dest(listing[i], source, target) != listing[j]
    requires forall i, j :: 0 <= i < j < |listing| ==> Dest(listing[i], source, target) != Dest(listing[j], source, target)
    ensures var r := CopyFiles(files, listing, source, target);
      (forall i :: 0 <= i < |listing| ==>
         Dest(listing[i], source, target) in r && r[Dest(listing[i], source, target)] == files[listing[i]])
      && (forall p :: p in files ==> p in r)
      && (forall p :: p in r ==> p in files || exists i :: 0 <= i < |listing| && p == Dest(listing[i], source, target))
      && (forall p :: p in files && (forall i :: 0 <= i < |listing| ==> p != Dest(listing[i], source, target)) ==> r[p] == files[p])
    decreases |listing|
  {
    if listing != [] {
      var n := |listing| - 1;
      var init := listing[..n];
      assert forall i :: 0 <= i < n ==> init[i] == listing[i];
      CopyFilesEffect(files, init, source, target);
      var pre := CopyFiles(files, init, source, target);
      var f := listing[n];
      assert f in pre;
      assert pre[f] == files[f] by {
        forall i | 0 <= i < n ensures f != Dest(init[i], source, target) {
          assert Dest(listing[i], source, target) != listing[n];
        }
      }
      var r := CopyFiles(files, listing, source, target);
      assert r == pre[Dest(f, source, target) := pre[f]];
      forall i | 0 <= i < |listing|
        ensures Dest(listing[i], source, target) in r && r[Dest(listing[i], source, target)] == files[listing[i]]
      {
        if i < n {
          assert Dest(listing[i], source, target) != Dest(listing[n], source, target);
          assert init[i] == listing[i];
        }
      }
      forall p | p in r ensures p in files || exists i :: 0 <= i < |listing| && p == Dest(listing[i], source, target) {
        if p != Dest(f, source, target) && p !in files {
          var i :| 0 <= i < n && p == Dest(init[i], source, target);
          assert p == Dest(listing[i], source, target);
        }
      }
      forall p | p in files && (forall i :: 0 <= i < |listing| ==> p != Dest(listing[i], source, target))
        ensures r[p] == files[p]
      {
        forall i | 0 <= i < n ensures p != Dest(init[i], source, target) {
          assert init[i] == listing[i];
        }
        assert p != Dest(listing[n], source, target);
      }
    }
  }

  /** A path no listed file is copied to keeps its contents. */
  lemma {:induction false} CopyFilesFrame(files: map<string, Bytes>, listing: seq<string>, source: string, target: string, p: string)
    requires |source| > 0
    requires forall i :: 0 <= i < |listing| ==> Dest(listing[i], source, target) != p
    ensures var r := CopyFiles(files, listing, source, target);
      (p in r <==> p in files) && (p in files ==> r[p] == files[p])
    decreases |listing|
  {
    if listing != [] {
      var n := |listing| - 1;
      assert forall i :: 0 <= i < n ==> listing[..n][i] == listing[i];
      CopyFilesFrame(files, listing[..n], source, target, p);
    }
  }

  /** When the source directory's text does not come back later in a
      path, the destination is the target followed by the same relative
      path. */
  lemma DestMirrors(f: string, source: string, target: string)
    requires |source| > 0 && Under(f, source)
    requires !Contains([Sep] + Relative(f, source), source)
    ensures Dest(f, source, target) == target + [Sep] + Relative(f, source)
  {
    var rel := Relative(f, source);
    UnderRelative(f, source);
    assert f == source + ([Sep] + rel);
    ReplaceAllLeading(source, [Sep] + rel, target);
    ReplaceAllAbsent([Sep] + rel, source, target);
  }

  /** The replacement is not anchored at the start: a path that spells the
      source directory again further in is rewritten there too. */
  lemma DestRewritesRepeats()
    ensures Dest("up\\up", "up", "new") == "new\\new"
  {
    ReplaceAllLeading("up", "\\up", "new");
    assert "up\\up" == "up" + "\\up";
    assert "\\up"[..2] != "up";
    assert "\\up"[1..] == "up";
    ReplaceAllLeading("up", "", "new");
    assert "up" + "" == "up";
  }

  /** Two directories neither of which contains the other. */
  predicate Apart(a: string, b: string) {
    a != b && !Under(a, b) && !Under(b, a) && !EndsWithSep(a) && !EndsWithSep(b)
  }

  /** Nothing inside b is inside a when the two directories are apart. */
  lemma ApartTrees(a: string, b: string, p: string)
    requires Apart(a, b) && Under(p, b)
    ensures !Under(p, a)
  {
    if |a| < |b| {
      assert p[..|a| + 1] == b[..|a| + 1];
      if |b| == |a| + 1 { assert b[..|a| + 1] == b; }
    } else if |a| > |b| {
      if |p| >= |a| + 1 { assert p[..|a| + 1][..|b| + 1] == p[..|b| + 1]; }
      assert (a + [Sep])[..|b| + 1] == a[..|b| + 1];
      if |a| == |b| + 1 { assert a[..|b| + 1] == a; }
    } else {
      assert p[..|a|] == b;
    }
  }

  /** A folder inside a and not ending in a separator is apart from
      every folder a is apart from. */
  lemma ApartInside(a: string, b: string, c: string)
    requires Apart(a, b) && Under(c, a) && !EndsWithSep(c)
    ensures Apart(c, b)
  {
    ApartTrees(b, a, c);
    if Under(b, c) { UnderNested(b, c, a); }
  }

  /** Writing a file outside a folder leaves whether the folder exists. */
  lemma DirExistsWrite(d: Disk, q: string, b: Bytes, p: string)
    requires !Under(q, p)
    ensures DirExists(WriteFile(d, q, b), p) == DirExists(d, p)
  {
    var r := WriteFile(d, q, b);
    if exists f :: f in r.files && Under(f, p) {
      var f :| f in r.files && Under(f, p);
      assert f in d.files;
    }
    if exists f :: f in d.files && Under(f, p) {
      var f :| f in d.files && Under(f, p);
      assert f in r.files;
    }
  }

  /** The source tree after the copy: when source and target are apart,
      the listing is the full contents of source, and no relative path
      spells source again, every file of the source tree appears under
      target at the same relative path with the same contents, the source
      tree is left as it was, and files elsewhere are untouched. */
  lemma CopyTreeMirrors(d: Disk, source: string, target: string, dirListing: seq<string>, listing: seq<string>)
    requires |source| > 0 && Apart(source, target)
    requires IsListing(d.files, source, listing)
    requires forall i :: 0 <= i < |listing| ==> !Contains([Sep] + Relative(listing[i], source), source)
    ensures var r := CopyTree(d, source, target, dirListing, listing);
      (forall f :: f in d.files && Under(f, source) ==>
         var g := target + [Sep] + Relative(f, source); g in r.files && r.files[g] == d.files[f])
      && (forall p :: p in d.files && !Under(p, target) ==> p in r.files && r.files[p] == d.files[p])
      && (forall p :: p in r.files && !Under(p, target) ==> p in d.files)
      && (forall p :: p in r.files && p !in d.files ==>
            exists f :: f in d.files && Under(f, source) && p == target + [Sep] + Relative(f, source))
  {
    var r := CopyTree(d, source, target, dirListing, listing);
    forall i | 0 <= i < |listing|
      ensures Dest(listing[i], source, target) == target + [Sep] + Relative(listing[i], source)
      ensures Under(Dest(listing[i], source, target), target)
    {
      DestMirrors(listing[i], source, target);
      var rel := Relative(listing[i], source);
      var g := target + [Sep] + rel;
      assert g[..|target| + 1] == target + [Sep];
    }
    forall i, j | 0 <= i < |listing| && 0 <= j < |listing|
      ensures Dest(listing[i], source, target) != listing[j]
    {
      ApartTrees(source, target, Dest(listing[i], source, target));
    }
    forall i, j | 0 <= i < j < |listing|
      ensures Dest(listing[i], source, target) != Dest(listing[j], source, target)
    {
      var ri := Relative(listing[i], source);
      var rj := Relative(listing[j], source);
      UnderRelative(listing[i], source);
      UnderRelative(listing[j], source);
      assert ri == (target + [Sep] + ri)[|target| + 1..];
      assert rj == (target + [Sep] + rj)[|target| + 1..];
    }
    CopyFilesEffect(d.files, listing, source, target);
    forall f | f in d.files && Under(f, source)
      ensures var g := target + [Sep] + Relative(f, source); g in r.files && r.files[g] == d.files[f]
    {
      var i :| 0 <= i < |listing| && listing[i] == f;
    }
    forall p | p in r.files && p !in d.files
      ensures exists f :: f in d.files && Under(f, source) && p == target + [Sep] + Relative(f, source)
    {
      var i :| 0 <= i < |listing| && p == Dest(listing[i], source, target);
      assert listing[i] in d.files && Under(listing[i], source);
    }
  }

  /** The file system the controllers act on. */
  class FileSystem {
    var files: map<string, Bytes>
    var dirs: set<string>

    function View(): Disk
      reads this
    {
      Disk(files, dirs)
    }

    constructor (d: Disk)
      ensures View() == d
    {
      files := d.files;
      dirs := d.dirs;
    }

    method WriteAllBytes(p: string, b: Bytes)
      modifies this
      ensures View() == WriteFile(old(View()), p, b)
    {
      files := files[p := b];
    }

    method Delete(p: string)
      modifies this
      ensures View() == DeleteFile(old(View()), p)
    {
      files := files - {p};
    }

    method Copy(src: string, dst: string)
      requires src in files
      modifies this
      ensures View() == CopyFile(old(View()), src, dst)
    {
      files := files[dst := files[src]];
    }

    method CreateDirectory(p: string)
      modifies this
      ensures View() == MakeDir(old(View()), p)
    {
      dirs := dirs + {p};
    }

    method DeleteDirectory(p: string)
      modifies this
      ensures View() == DeleteTree(old(View()), p)
    {
      files := map f | f in files && !Under(f, p) :: files[f];
      dirs := set x | x in dirs && x != p && !Under(x, p);
    }

    /** Directory.Delete(p, true) that throws after removing the files
        in removed. */
    method DeleteDirectoryPart(p: string, removed: set<string>)
      modifies this
      ensures View() == DeleteTreePart(old(View()), p, removed)
    {
      files := map f | f in files && !(Under(f, p) && f in removed) :: files[f];
    }

    /** CopyDirectory(source, target) over the listings the two
        Directory.Get* calls return. */
    method CopyDirectory(source: string, target: string, dirListing: seq<string>, listing: seq<string>)
      requires |source| > 0
      modifies this
      ensures View() == CopyTree(old(View()), source, target, dirListing, listing)
    {
      for i := 0 to |dirListing|
        invariant files == old(files)
        invariant dirs == old(dirs) + CreatedDirs(dirListing[..i], source, target)
      {
        assert dirListing[..i + 1][..i] == dirListing[..i];
        dirs := dirs + {Dest(dirListing[i], source, target)};
      }
      assert dirListing[..|dirListing|] == dirListing;
      for i := 0 to |listing|
        invariant dirs == old(dirs) + CreatedDirs(dirListing, source, target)
        invariant files == CopyFiles(old(files), listing[..i], source, target)
      {
        assert listing[..i + 1][..i] == listing[..i];
        var f := listing[i];
        if f in files {
          files := files[Dest(f, source, target) := files[f]];
        }
      }
      assert listing[..|listing|] == listing;
    }
  }
}
