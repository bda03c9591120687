/** What the in-memory filesystem promises, stated over one `TestFs` state:
    the directory listing derived from the flat table, the asymmetry between
    `exists` and derived directories, and the builder laws of `OpenOptions`. */
module FsProperties {
  import opened Io
  import opened Fs

  /** Setting the four flags one after the other from `Default` reaches every
      combination, whatever the order, and a later setting of a flag wins. */
  lemma BuilderReachesEveryCombination(r: bool, w: bool, a: bool, c: bool, o: OpenOptions, x: bool)
    ensures OpenOptions.Default().Read(r).Write(w).Append(a).Create(c) == OpenOptions(r, w, a, c)
    ensures OpenOptions.Default().Create(c).Append(a).Write(w).Read(r) == OpenOptions(r, w, a, c)
    ensures o.Read(x).Read(r) == o.Read(r) && o.Write(x).Write(w) == o.Write(w)
    ensures o.Append(x).Append(a) == o.Append(a) && o.Create(x).Create(c) == o.Create(c)
  {
  }

  lemma StartsWithTrans(a: Path, b: Path, c: Path)
    requires StartsWith(a, b) && StartsWith(b, c)
    ensures StartsWith(a, c)
  {
    assert a[..|c|] == a[..|b|][..|c|];
  }

  /** The entry made of a key one level below `p` or deeper lies exactly one
      level below `p`, and the key lies below the entry. */
  lemma EntryForBelow(k: Path, p: Path)
    requires k != p && StartsWith(k, p)
    ensures |p| < |k|
    ensures |EntryFor(k, |p|).path| == |p| + 1 && StartsWith(EntryFor(k, |p|).path, p)
    ensures StartsWith(k, EntryFor(k, |p|).path)
  {
    var q := k[..|p| + 1];
    assert q[..|p|] == k[..|p|];
  }

  /** Which entries `dir(p)` lists, without reference to how they are
      computed: a `File` for each stored key exactly one level below `p`, a
      `Dir` for each path one level below `p` that some deeper stored key
      lies under, and nothing else. */
  lemma DirSetMembers(fs: TestFs, p: Path, e: TestDirEnt)
    requires p !in fs.files
    ensures fs.DirSet(p).Ok?
    ensures e in fs.DirSet(p).value <==>
              |e.path| == |p| + 1 && StartsWith(e.path, p) &&
              if e.IsFile() then e.path in fs.files
              else exists k :: k in fs.files && |k| > |p| + 1 && StartsWith(k, e.path)
  {
    var listing := fs.DirSet(p).value;
    if e in listing {
      var k :| k in fs.files && k != p && StartsWith(k, p) && e == EntryFor(k, |p|);
      EntryForBelow(k, p);
    }
    if |e.path| == |p| + 1 && StartsWith(e.path, p) {
      if e.IsFile() && e.path in fs.files {
        assert e == EntryFor(e.path, |p|);
      } else if e.IsDir() && exists k :: k in fs.files && |k| > |p| + 1 && StartsWith(k, e.path) {
        var k :| k in fs.files && |k| > |p| + 1 && StartsWith(k, e.path);
        StartsWithTrans(k, e.path, p);
        assert k[..|p| + 1] == e.path;
        assert e == EntryFor(k, |p|);
      }
    }
  }

  /** `dir(p)` of a path that is not stored succeeds, and its listing is empty
      exactly when no stored key lies below `p`: an unknown path lists as an
      empty directory. */
  lemma DirSetEmpty(fs: TestFs, p: Path)
    requires p !in fs.files
    ensures fs.DirSet(p).Ok?
    ensures fs.DirSet(p).value == {} <==> forall k :: k in fs.files ==> !(k != p && StartsWith(k, p))
  {
    var listing := fs.DirSet(p).value;
    if exists k :: k in fs.files && k != p && StartsWith(k, p) {
      var k :| k in fs.files && k != p && StartsWith(k, p);
      EntryForBelow(k, p);
      assert EntryFor(k, |p|) in listing;
    } else {
      assert listing == {};
    }
  }

  /** `exists` answers only "is this a stored key": a path with stored keys
      below it is not reported to exist, `dir` lists it as a non-empty
      directory, and still `_is_dir` says it is no directory. */
  lemma ExistsOnlyLiteralKeys(fs: TestFs, p: Path, k: Path)
    requires p !in fs.files && k in fs.files && k != p && StartsWith(k, p)
    ensures fs.Exists(p) == Ok(false)
    ensures fs.DirSet(p).Ok? && fs.DirSet(p).value != {}
    ensures fs.IsDirPath(p) == Ok(false)
  {
    EntryForBelow(k, p);
    assert EntryFor(k, |p|) in fs.DirSet(p).value;
  }

  /** When no stored key is a strict prefix of another (no file is also a
      directory), every child of `p` is listed once, as a file or as a
      directory but not both. */
  lemma OneEntryPerChild(fs: TestFs, p: Path, q: Path)
    requires p !in fs.files
    requires forall a, b :: a in fs.files && b in fs.files && a != b ==> !StartsWith(b, a)
    ensures !(File(q) in fs.DirSet(p).value && Dir(q) in fs.DirSet(p).value)
  {
    DirSetMembers(fs, p, File(q));
    DirSetMembers(fs, p, Dir(q));
  }

  /** The table does not keep a file from also being a directory: a stored
      `q` with a stored key below it is listed both as `File(q)` and as
      `Dir(q)`. */
  lemma CollisionListedTwice(fs: TestFs, p: Path, q: Path, k: Path)
    requires p !in fs.files && q in fs.files && k in fs.files
    requires |q| == |p| + 1 && StartsWith(q, p)
    requires |k| > |q| && StartsWith(k, q)
    ensures File(q) in fs.DirSet(p).value && Dir(q) in fs.DirSet(p).value
  {
    DirSetMembers(fs, p, File(q));
    DirSetMembers(fs, p, Dir(q));
  }

  /** Opening a stored path with only the read flag succeeds, and reading
      through that handle gives back the stored text. */
  lemma OpenForReadingReads(fs: TestFs, path: Path)
    requires path in fs.files
    ensures fs.Open(OpenOptions.Default().Read(true), path).Ok?
    ensures fs.ReadToString(fs.Open(OpenOptions.Default().Read(true), path).value) == Ok(fs.files[path])
  {
  }

  // Paths of the worked examples: /a, /a/b, /a/b/c, /a/b/e, /a/d.
  const A: Path := ["/", "a"]
  const AB: Path := ["/", "a", "b"]
  const ABC: Path := ["/", "a", "b", "c"]
  const ABE: Path := ["/", "a", "b", "e"]
  const AD: Path := ["/", "a", "d"]

  /** With /a/b/c, /a/b/e and /a/d stored, `dir("/a")` is exactly
      `{Dir("/a/b"), File("/a/d")}`: the two files under /a/b give one entry. */
  lemma ListingCollapsesDeeperKeys(fs: TestFs)
    requires fs.files.Keys == {ABC, ABE, AD}
    ensures fs.DirSet(A) == Ok({Dir(AB), File(AD)})
  {
    assert A !in fs.files;
    var listing := fs.DirSet(A).value;
    assert ABC[..3] == AB && ABE[..3] == AB;
    forall e | e in listing
      ensures e == Dir(AB) || e == File(AD)
    {
      var k :| k in fs.files && k != A && StartsWith(k, A) && e == EntryFor(k, 2);
      assert k in fs.files.Keys;
    }
    assert EntryFor(ABC, 2) in listing && EntryFor(AD, 2) in listing;
    assert listing == {Dir(AB), File(AD)};
  }
}
