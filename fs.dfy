/** The filesystem capability of cpufreqd and its in-memory double, `TestFs`:
    a flat table from absolute paths to text from which directories are
    derived on demand. */
module Fs {
  import opened Io
  import Utf8

  /** A path as the sequence of its components, as `Path::iter` yields them:
      an absolute path starts with the root component "/". */
  type Path = seq<string>

  /** `Path::starts_with`: `base` is a whole-component prefix of `p`, so
      /a/bc does not start with /a/b. */
  predicate StartsWith(p: Path, base: Path)
  {
    |base| <= |p| && p[..|base|] == base
  }

  /** The content `TestFs::new` gives every seeded file. */
  const Placeholder: string := "no content"

  /** The four open flags, a value with one setter per flag (the `mk_builder!`
      expansion), each returning a copy with only that flag replaced. */
  datatype OpenOptions = OpenOptions(read: bool, write: bool, append: bool, create: bool)
  {
    /** The derived `Default`: nothing may be done with the file. */
    static function Default(): (o: OpenOptions)
      ensures !o.read && !o.write && !o.append && !o.create
    {
      OpenOptions(false, false, false, false)
    }

    function Read(val: bool): (o: OpenOptions)
      ensures o.read == val
      ensures o.write == write && o.append == append && o.create == create
    {
      this.(read := val)
    }

    function Write(val: bool): (o: OpenOptions)
      ensures o.write == val
      ensures o.read == read && o.append == append && o.create == create
    {
      this.(write := val)
    }

    function Append(val: bool): (o: OpenOptions)
      ensures o.append == val
      ensures o.read == read && o.write == write && o.create == create
    {
      this.(append := val)
    }

    function Create(val: bool): (o: OpenOptions)
      ensures o.create == val
      ensures o.read == read && o.write == write && o.append == append
    {
      this.(create := val)
    }
  }

  /** An open handle: the path it was opened on and the flags it was opened
      with, nothing else. */
  datatype TestFile = TestFile(path: Path, options: OpenOptions)

  /** A directory entry returned by `dir`. */
  datatype TestDirEnt = File(path: Path) | Dir(path: Path)
  {
    /** `Fs::is_dir` of `TestFs`: only the `Dir` variant is a directory. */
    predicate IsDir(): (r: bool)
      ensures r <==> !File?
    {
      Dir?
    }

    /** The default `Fs::is_file`, the negation of `is_dir`. */
    predicate IsFile(): (r: bool)
      ensures r <==> File?
    {
      !IsDir()
    }
  }

  /** The entry `_dir` makes of a stored key `k` below a path of `depth`
      components: the key itself when it is one level below, else the
      directory one level below through which it is reached. */
  function EntryFor(k: Path, depth: nat): TestDirEnt
    requires depth < |k|
  {
    if |k| > depth + 1 then Dir(k[..depth + 1]) else File(k)
  }

  /** How `_is_dir` reads the answer of `_dir` on a stored path: NotADirectory
      means "no", any other failure is passed on, a listing means "yes". */
  function ListingSaysDir(listing: Result<set<TestDirEnt>>): Result<bool>
  {
    match listing
    case Err(NotADirectory) => Ok(false)
    case Err(e) => Err(e)
    case Ok(_) => Ok(true)
  }

  class TestFs {
    /** Every stored file and its content; directories are never stored. */
    var files: map<Path, string>

    /** `TestFs::new`: one placeholder file per listed path. */
    constructor (l: seq<Path>)
      ensures forall p :: p in files <==> p in l
      ensures forall p :: Exists(p) == Ok(p in l)
      ensures forall p :: p in files ==> files[p] == Placeholder
    {
      var table: map<Path, string> := map[];
      for i := 0 to |l|
        invariant forall p :: p in table <==> p in l[..i]
        invariant forall p :: p in table ==> table[p] == Placeholder
      {
        table := table[l[i] := Placeholder];
      }
      assert l[..|l|] == l;
      files := table;
    }

    /** `exists`/`_exists`: whether `p` is a stored key; never fails. A
        derived directory is not a stored key, so it does not exist here. */
    function Exists(p: Path): (r: Result<bool>)
      reads this
      ensures r.Ok?
      ensures r.value <==> p in files
    {
      Ok(p in files)
    }

    /** `open`: a handle on a stored path, or on any path when `create` is
        set; the table is not touched. */
    function Open(options: OpenOptions, path: Path): (r: Result<TestFile>)
      reads this
      ensures r.Ok? <==> path in files || options.create
      ensures r.Ok? ==> r.value.path == path && r.value.options == options
      ensures r.Err? ==> r.error == NotFound
    {
      // `self.exists(path)?`: `_exists` never fails, so `?` never returns early
      if Exists(path).value || options.create then Ok(TestFile(path, options)) else Err(NotFound)
    }

    /** `_dir` up to its `HashSet`: NotADirectory on a stored key, otherwise
        one entry per stored key strictly below `p`, deduplicated. */
    function DirSet(p: Path): (r: Result<set<TestDirEnt>>)
      reads this
      ensures r.Err? <==> p in files
      ensures r.Err? ==> r.error == NotADirectory
    {
      if Exists(p).value then Err(NotADirectory)
      else Ok(set k | k in files && k != p && StartsWith(k, p) :: EntryFor(k, |p|))
    }

    /** `dir`: the entries of `DirSet` collected into a list, each once, in
        the order the set hands them out. */
    method Dir(p: Path) returns (r: Result<seq<TestDirEnt>>)
      ensures DirSet(p).Err? ==> r == Err(DirSet(p).error)
      ensures DirSet(p).Ok? ==> r.Ok? && (forall e :: e in r.value <==> e in DirSet(p).value)
      ensures r.Ok? ==> forall i, j :: 0 <= i < j < |r.value| ==> r.value[i] != r.value[j]
    {
      var listing := DirSet(p);
      if listing.Err? {
        return Err(listing.error);
      }
      var out: seq<TestDirEnt> := [];
      var rest := listing.value;
      while rest != {}
        invariant rest <= listing.value
        invariant forall e :: e in listing.value <==> e in out || e in rest
        invariant forall e :: e in out ==> e !in rest
        invariant forall i, j :: 0 <= i < j < |out| ==> out[i] != out[j]
        decreases rest
      {
        var e :| e in rest;
        out := out + [e];
        rest := rest - {e};
      }
      r := Ok(out);
    }

    /** `_is_dir`: a path that is not stored is no directory; a stored path
        makes `_dir` fail with NotADirectory, which also reads as no
        directory. So no path is ever a directory. */
    function IsDirPath(p: Path): (r: Result<bool>)
      reads this
      ensures r == Ok(false)
    {
      if !Exists(p).value then Ok(false) else ListingSaysDir(DirSet(p))
    }

    /** `read_to_string`: the directory check, then the read flag, then the
        lookup. */
    function ReadToString(f: TestFile): (r: Result<string>)
      reads this
      ensures !f.options.read ==> r == Err(PermissionDenied)
      ensures f.options.read && f.path !in files ==> r == Err(NotFound)
      ensures f.options.read && f.path in files ==> r == Ok(files[f.path])
    {
      ReadAfterDirCheck(IsDirPath(f.path), f)
    }

    /** The rest of `read_to_string` once `_is_dir` has answered `isDir`. */
    function ReadAfterDirCheck(isDir: Result<bool>, f: TestFile): Result<string>
      reads this
    {
      match isDir
      case Err(e) => Err(e)
      case Ok(true) => Err(IsADirectory)
      case Ok(false) =>
        if !f.options.read then Err(PermissionDenied)
        else if f.path !in files then Err(NotFound)
        else Ok(files[f.path])
    }

    /** `write_to`: the write flag, then UTF-8 decoding, then the directory
        check; a missing path is created only with `create`, an existing one
        is overwritten. Nothing else in the table changes. */
    method WriteTo(f: TestFile, content: seq<Utf8.Byte>) returns (r: Result<()>)
      modifies this
      ensures r != Err(IsADirectory)
      ensures !f.options.write ==> r == Err(PermissionDenied) && files == old(files)
      ensures f.options.write && !Utf8.Valid(content) ==> r == Err(Other) && files == old(files)
      ensures f.options.write && Utf8.Valid(content) && (f.path in old(files) || f.options.create) ==>
                r == Ok(()) && files == old(files)[f.path := Utf8.Decode(content).value]
      ensures f.options.write && Utf8.Valid(content) && f.path !in old(files) && !f.options.create ==>
                r == Err(NotFound) && files == old(files)
    {
      if !f.options.write {
        return Err(PermissionDenied);
      }
      var decoded := Utf8.Decode(content);
      if decoded.None? {
        return Err(Other);
      }
      var text := decoded.value;
      var isDir := IsDirPath(f.path);
      match isDir {
        case Err(e) => return Err(e);
        case Ok(true) => return Err(IsADirectory);
        case Ok(false) =>
      }
      if f.path !in files && f.options.create {
        files := files[f.path := text];
        return Ok(());
      }
      if f.path !in files {
        return Err(NotFound);
      }
      files := files[f.path := text];
      r := Ok(());
    }
  }
}
