# cpufreqd's in-memory filesystem, in Dafny

cpufreqd is a privileged service that reads and rewrites per-CPU frequency
scaling files under /sys. It reaches the filesystem only through a small
capability, the `Fs` trait: `exists`, `open`, `read_to_string`, `write_to`,
`dir`, `is_dir` and `is_file`. Under test, the service runs against `TestFs`,
an in-memory double. `TestFs` keeps one flat table from absolute file paths
to their text. It stores no directories: a directory is any path that a
stored key extends, and `dir` derives listings from the keys on demand.

This project models `TestFs` and what it relies on:

- `OpenOptions`, the four open flags, with its one-flag setters and `Default`;
- `TestFile`, an open handle (a path and its flags);
- `TestDirEnt`, a listing entry, with `is_dir` and the trait's default `is_file`;
- the table itself, as class `Fs.TestFs` with a field `files: map<Path, string>`.

The table's operations are modelled in their Rust form. `new` and `write_to`
change the table, so they are a constructor and a method with `modifies`.
`exists`, `open`, `read_to_string`, `_dir` and `_is_dir` only read it, so
they are functions with `reads this`. `dir` is a method that collects the
deduplicated entry set into a list.

A path is the sequence of its components, as `Path::iter` yields them.
/sys/class/cpu0 is `["/", "sys", "class", "cpu0"]`. `StartsWith` compares
whole components, as `Path::starts_with` does. `String::from_utf8` is
modelled by `Utf8.Decode`, which implements the well-formedness rules of
section 4 of RFC 3629. `Utf8.Encode` is its inverse.

Files:

- `io.dfy`: the error kinds and the `io::Result` shape.
- `utf8.dfy`: UTF-8 decoding and encoding, with both round trips proved.
- `fs.dfy`: `OpenOptions`, `TestFile`, `TestDirEnt` and class `TestFs`.
- `fs_properties.dfy`: lemmas about the listings `dir` derives, and the builder laws.
- `fs_scenarios.dfy`: clients that seed, list, create, write and read back.

## Behaviour the model keeps as the code has it

- `_is_dir` answers `Ok(false)` for every path. For a path that is not stored,
  it returns at its first test. For a stored path, `_dir` fails with
  NotADirectory, and `_is_dir` reads that as "no". So the IsADirectory
  branches of `read_to_string` and `write_to` can never be taken. The model
  keeps them in the bodies, and the contracts (`IsDirPath`, `ReadToString`,
  `WriteTo`) prove they are never taken.
- No path is ever a directory, not even one that stored keys lie below.
  `write_to` checks the write flag first, then UTF-8, then the inert
  directory check. `read_to_string` makes the inert directory check first,
  then the read flag, then the lookup.
- `exists` is true only for a stored key. A path that only has keys below it
  is not reported to exist, yet `dir` lists it as a non-empty directory
  (`ExistsOnlyLiteralKeys`).
- Nothing stops a stored file from also being a directory. Creating
  /a/b/c when /a/b is stored succeeds, and `dir("/a")` then lists both
  `File(/a/b)` and `Dir(/a/b)` (`CollisionListedTwice`). When no key is a
  prefix of another, each child is listed once (`OneEntryPerChild`).
- `dir` on a path that is not stored and has no stored key below it succeeds
  with an empty list (`DirSetEmpty`).
- The `append` flag is carried in handles but never consulted.

## Model

| member | source | states |
|---|---|---|
| `Fs.OpenOptions.Default` | cpufreqd/src/fs.rs:48-54 | the derived default has all four flags false |
| `Fs.OpenOptions.Read` | cpufreqd/src/fs.rs:13-15 | sets `read` to the given value and keeps the other three flags |
| `Fs.OpenOptions.Write` | cpufreqd/src/fs.rs:13-15 | sets `write` to the given value and keeps the other three flags |
| `Fs.OpenOptions.Append` | cpufreqd/src/fs.rs:13-15 | sets `append` to the given value and keeps the other three flags |
| `Fs.OpenOptions.Create` | cpufreqd/src/fs.rs:13-15 | sets `create` to the given value and keeps the other three flags |
| `FsProperties.BuilderReachesEveryCombination` | cpufreqd/src/fs.rs:48-56 | chaining the four setters from `Default` yields exactly the chosen flags, in either order, and a later setting of a flag overrides an earlier one |
| `Fs.TestDirEnt.IsDir` | cpufreqd/src/fs.rs:141-143 | an entry is a directory exactly when it is not a `File` entry |
| `Fs.TestDirEnt.IsFile` | cpufreqd/src/fs.rs:31-33 | the default `is_file` holds exactly for the `File` variant, the complement of `is_dir` |
| `Fs.TestFs.constructor` | cpufreqd/src/fs.rs:175-181 | after seeding with a list, a path is stored and `exists` answers true exactly when it is in the list; every stored content is "no content" |
| `Fs.TestFs.Exists` | cpufreqd/src/fs.rs:194-196 | `exists`/`_exists` never fails and answers true exactly for a literal stored key; the constructor's seeding clause and `ExistsOnlyLiteralKeys` are stated through it |
| `FsProperties.ExistsOnlyLiteralKeys` | cpufreqd/src/fs.rs:194-196 | `exists` is false for a path that only has stored keys below it, although `dir` lists that path as non-empty and `_is_dir` still answers false |
| `Fs.TestFs.Open` | cpufreqd/src/fs.rs:79-87 | open succeeds exactly when the path is stored or `create` is set, and the handle records exactly the given path and flags; otherwise it fails NotFound |
| `Fs.TestFs.ReadToString` | cpufreqd/src/fs.rs:126-139 | without the read flag, PermissionDenied whether or not the path exists; with it, NotFound for a missing path and otherwise exactly the stored text; never IsADirectory |
| `Fs.TestFs.WriteTo` | cpufreqd/src/fs.rs:89-116 | PermissionDenied without the write flag, then Other for bytes that are not UTF-8, both leaving the table unchanged; otherwise it inserts (with `create`) or overwrites (stored path) the decoded text at that one path, or fails NotFound leaving the table unchanged; never IsADirectory |
| `Fs.TestFs.IsDirPath` | cpufreqd/src/fs.rs:183-192 | `_is_dir` answers `Ok(false)` for every path: an unstored path stops at the first test, and for a stored one `_dir`'s NotADirectory is read as "no" (helper `ListingSaysDir`, the match at lines 185-191) |
| `Fs.TestFs.DirSet` | cpufreqd/src/fs.rs:147-150 | `_dir` fails exactly when the path is a stored key, and then with NotADirectory; otherwise it is the set of entries the helper `EntryFor` (the closure at lines 157-170) makes of the keys below the path |
| `FsProperties.DirSetMembers` | cpufreqd/src/fs.rs:151-171 | on a path that is not stored, the entries are exactly a `File` for each stored key one level below and a `Dir` for each path one level below that a deeper stored key lies under |
| `FsProperties.DirSetEmpty` | cpufreqd/src/fs.rs:151-155 | on a path that is not stored, the listing is empty exactly when no stored key strictly extends the path |
| `Fs.TestFs.Dir` | cpufreqd/src/fs.rs:118-120 | `dir` fails as `_dir` does; otherwise it returns a list without duplicates whose elements are exactly the derived entries |
| `FsProperties.OneEntryPerChild` | cpufreqd/src/fs.rs:155-170 | when no stored key is a prefix of another, no child path is listed both as a file and as a directory |
| `FsProperties.CollisionListedTwice` | cpufreqd/src/fs.rs:157-169 | a stored path that also has a stored key below it is listed both as `File` and as `Dir` |
| `FsProperties.ListingCollapsesDeeperKeys` | cpufreqd/src/fs.rs:157-171 | with /a/b/c, /a/b/e and /a/d stored, `dir("/a")` is exactly `{Dir(/a/b), File(/a/d)}` |
| `FsProperties.OpenForReadingReads` | cpufreqd/src/fs.rs:131-137 | a stored path opened with only the read flag reads back its stored text |
| `Utf8.DecodeEncode` | cpufreqd/src/fs.rs:94-97 | every text's UTF-8 bytes are accepted by the decoder and decode back to that text |
| `Utf8.EncodeDecode` | cpufreqd/src/fs.rs:94-97 | accepted bytes are exactly the encoding of the text they decode to, so storing the decoded text loses nothing of what was written |
| `FsScenarios.SeededListing` | cpufreqd/src/fs.rs:175-181 | seeding cpu0's governor and freq files and listing cpu0 gives exactly those two files |
| `FsScenarios.OpenMissing` | cpufreqd/src/fs.rs:80-86 | opening a path that is not stored, for reading and without `create`, fails NotFound |
| `FsScenarios.CreateWriteRead` | cpufreqd/src/fs.rs:103-105 | opening cpu1's governor with create and write, writing "performance", then reading it with a read handle gives "performance" |
| `FsScenarios.WriteReadRoundTrip` | cpufreqd/src/fs.rs:103-115 | writing a text through a handle that may write, on a stored path or with `create`, succeeds; a later read returns that text; only that path changes |
| `FsScenarios.WrittenBytesReadBack` | cpufreqd/src/fs.rs:94-114 | after a write of well-formed bytes through a handle that may write, on a stored path or with `create`, a read returns a text whose encoding is exactly those bytes |
| `FsScenarios.LastWriteWins` | cpufreqd/src/fs.rs:112-115 | after two writes to a stored path, the read returns the second text, whatever the first write did |

## Left out

- The `Fs` trait as an interface with two implementations: the model has only the `TestFs` implementation, and its members carry the trait's operations directly.
- The real-filesystem side: `impl From<OpenOptions> for fs::OpenOptions` (cpufreqd/src/fs.rs:58-67) passes the four flags straight to the operating system's `std::fs` API. Nothing in it can be stated without the operating system.
- libcpufreq/src/lib.rs holds only the request, response and core-selector types and their derived wire codec. It has no behaviour of its own, so it is not part of this model.
- `std::path` parsing: trailing slashes, `.` components and OS-string conversion. Paths are taken as already-split component sequences.
- `Arc` sharing, `io::Error` beyond its `ErrorKind`, and `Utf8Error` details. A rejected decode is reported only as Other, as `write_to` does.
- Fs.TestFs.Dir: does not model the particular order in which the `HashSet` hands out its entries. The result is stated up to order, with no duplicates.
- Utf8.Decode: stands for `String::from_utf8`. It implements the accept/reject decision and the decoded text, not the library's implementation.
