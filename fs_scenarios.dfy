/** Clients of `TestFs` that drive it the way the control service does: seed
    a sysfs-shaped tree, list it, create and rewrite control files, and read
    them back. */
module FsScenarios {
  import opened Io
  import opened Fs
  import Utf8
  import FsProperties

  const Cpu0: Path := ["/", "sys", "class", "cpu0"]
  const Cpu0Governor: Path := ["/", "sys", "class", "cpu0", "governor"]
  const Cpu0Freq: Path := ["/", "sys", "class", "cpu0", "freq"]
  const Cpu1Governor: Path := ["/", "sys", "class", "cpu1", "governor"]

  /** Seeding two files under cpu0 and listing cpu0 gives exactly the two
      files. */
  method SeededListing() returns (r: Result<seq<TestDirEnt>>)
    ensures r.Ok?
    ensures forall e :: e in r.value <==> e == File(Cpu0Governor) || e == File(Cpu0Freq)
  {
    var fs := new TestFs([Cpu0Governor, Cpu0Freq]);
    assert Cpu0 !in fs.files;
    forall e
      ensures e in fs.DirSet(Cpu0).value <==> e == File(Cpu0Governor) || e == File(Cpu0Freq)
    {
      FsProperties.DirSetMembers(fs, Cpu0, e);
    }
    r := fs.Dir(Cpu0);
  }

  /** Opening a missing file for reading, without `create`, fails. */
  method OpenMissing() returns (r: Result<TestFile>)
    ensures r == Err(NotFound)
  {
    var fs := new TestFs([Cpu0Governor, Cpu0Freq]);
    r := fs.Open(OpenOptions.Default().Read(true), ["/", "missing"]);
  }

  /** Creating cpu1's governor file, writing "performance" and reading it
      back with a fresh read handle. */
  method CreateWriteRead() returns (w: Result<()>, r: Result<string>)
    ensures w == Ok(()) && r == Ok("performance")
  {
    var fs := new TestFs([Cpu0Governor, Cpu0Freq]);
    var h := fs.Open(OpenOptions.Default().Create(true).Write(true), Cpu1Governor);
    Utf8.DecodeEncode("performance");
    w := fs.WriteTo(h.value, Utf8.Encode("performance"));
    var g := fs.Open(OpenOptions.Default().Read(true), Cpu1Governor);
    r := fs.ReadToString(g.value);
  }

  /** The round trip: whatever text is written through a handle that may
      write (and may create, or names a stored file) is what a later read
      returns, and only that file changes. */
  method WriteReadRoundTrip(fs: TestFs, f: TestFile, text: string) returns (w: Result<()>, r: Result<string>)
    requires f.options.write && (f.path in fs.files || f.options.create)
    modifies fs
    ensures w == Ok(()) && r == Ok(text)
    ensures fs.files == old(fs.files)[f.path := text]
  {
    Utf8.DecodeEncode(text);
    w := fs.WriteTo(f, Utf8.Encode(text));
    var g := fs.Open(OpenOptions.Default().Read(true), f.path);
    r := fs.ReadToString(g.value);
  }

  /** Bytes accepted by a write are kept exactly: the text a later read
      returns encodes back to the very bytes that were written. */
  method WrittenBytesReadBack(fs: TestFs, f: TestFile, content: seq<Utf8.Byte>)
    returns (r: Result<string>)
    requires f.options.write && Utf8.Valid(content) && (f.path in fs.files || f.options.create)
    modifies fs
    ensures r.Ok? && Utf8.Encode(r.value) == content
  {
    var _ := fs.WriteTo(f, content);
    r := fs.ReadToString(TestFile(f.path, f.options.Read(true)));
    Utf8.EncodeDecode(content);
  }

  /** Writing an existing file twice: the second write wins, whatever the
      first one wrote or failed to write. */
  method LastWriteWins(fs: TestFs, f: TestFile, first: seq<Utf8.Byte>, second: string)
    returns (r: Result<string>)
    requires f.options.write && f.path in fs.files
    modifies fs
    ensures r == Ok(second)
    ensures fs.files == old(fs.files)[f.path := second]
  {
    var _ := fs.WriteTo(f, first);
    Utf8.DecodeEncode(second);
    var _ := fs.WriteTo(f, Utf8.Encode(second));
    r := fs.ReadToString(TestFile(f.path, f.options.Read(true)));
  }
}
