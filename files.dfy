/**
 * The part of `java.nio.file` the dependency pipeline uses: paths, the
 * `exists`/`isDirectory` queries, `createDirectories`, `copy` from a stream
 * and `newDirectoryStream`. The disk is a set of directories and a map from
 * the path of each regular file to its contents.
 */
module Files {
  import opened Wrappers
  import opened Orders

  type Bytes = seq<bv8>

  /** A path as `Paths.get` (a root string) and `Path.resolve` (a child) build it. */
  datatype Path = Root(root: string) | Child(parent: Path, name: string)

  /** `Path.toString()`, with '/' as the name separator. */
  function ToString(p: Path): string {
    match p
    case Root(s) => s
    case Child(q, n) => ToString(q) + "/" + n
  }

  /** `String.endsWith`. */
  predicate EndsWith(s: string, suffix: string) {
    |suffix| <= |s| && s[|s| - |suffix|..] == suffix
  }

  function Depth(p: Path): nat {
    match p
    case Root(_) => 0
    case Child(q, _) => Depth(q) + 1
  }

  /** `p` and every path above it. */
  function AncestorsOrSelf(p: Path): (r: set<Path>)
    ensures p in r
    ensures forall q :: q in r ==> Depth(q) <= Depth(p)
    ensures forall q :: q in r && q.Child? ==> q.parent in r
  {
    match p
    case Root(_) => {p}
    case Child(q, _) => {p} + AncestorsOrSelf(q)
  }

  datatype IOError =
    | FileSystemError(path: Path)  // an exception of java.nio.file about `path`
    | Failed(message: string)      // new IOException(message)

  datatype Disk = Disk(dirs: set<Path>, files: map<Path, Bytes>)

  /** What a real file system guarantees: nothing is both a file and a directory, and every entry sits in an existing directory. */
  ghost predicate Valid(d: Disk) {
    && d.dirs !! d.files.Keys
    && forall p :: (p in d.dirs || p in d.files) && p.Child? ==> p.parent in d.dirs
  }

  /** `Files.exists`: a directory or a regular file. */
  predicate Exists(d: Disk, p: Path) {
    p in d.dirs || p in d.files
  }

  /** The paths a `DirectoryStream` over `dir` yields: its direct entries, files and subdirectories alike. */
  function Entries(d: Disk, dir: Path): set<Path> {
    set p | p in d.dirs + d.files.Keys && p.Child? && p.parent == dir
  }

  /**
   * `Files.createDirectories(p)`: creates `p` and every missing ancestor.
   * It fails, creating nothing, when `p` or one of its ancestors is a
   * regular file; on a directory that already exists it does nothing.
   */
  function AfterCreateDirectories(d: Disk, p: Path): (r: Result<Disk, IOError>)
    ensures r.Ok? <==> forall q :: q in AncestorsOrSelf(p) ==> q !in d.files
    ensures r.Ok? ==> r.value.files == d.files && d.dirs <= r.value.dirs && p in r.value.dirs
    ensures r.Ok? ==> forall q :: q in r.value.dirs && q !in d.dirs ==> q in AncestorsOrSelf(p)
    ensures r.Err? ==> r.error == FileSystemError(p)
  {
    if AncestorsOrSelf(p) !! d.files.Keys then Ok(Disk(d.dirs + AncestorsOrSelf(p), d.files))
    else Err(FileSystemError(p))
  }

  /**
   * `Files.copy(in, target)` without REPLACE_EXISTING, all or nothing: it
   * fails when `target` exists or its parent is not a directory.
   */
  function AfterCopy(d: Disk, body: Bytes, target: Path): (r: Result<Disk, IOError>)
    ensures r.Ok? <==> !Exists(d, target) && target.Child? && target.parent in d.dirs
    ensures r.Ok? ==> r.value == Disk(d.dirs, d.files[target := body])
    ensures r.Err? ==> r.error == FileSystemError(target)
  {
    if Exists(d, target) || target.Root? || target.parent !in d.dirs then Err(FileSystemError(target))
    else Ok(Disk(d.dirs, d.files[target := body]))
  }

  /** `createDirectories` keeps the file system well formed: each new directory's parent is itself new or already there. */
  lemma CreateDirectoriesKeepsValid(d: Disk, p: Path)
    requires Valid(d)
    ensures AfterCreateDirectories(d, p).Ok? ==> Valid(AfterCreateDirectories(d, p).value)
  {
  }

  /** `copy` keeps the file system well formed: the new file sits in an existing directory. */
  lemma CopyKeepsValid(d: Disk, body: Bytes, target: Path)
    requires Valid(d)
    ensures AfterCopy(d, body, target).Ok? ==> Valid(AfterCopy(d, body, target).value)
  {
  }

  class FileSystem {
    var dirs: set<Path>
    var files: map<Path, Bytes>

    function State(): Disk
      reads this
    {
      Disk(dirs, files)
    }

    constructor (initial: Disk)
      requires Valid(initial)
      ensures State() == initial
    {
      dirs := initial.dirs;
      files := initial.files;
    }

    method CreateDirectories(p: Path) returns (r: Outcome<IOError>)
      modifies this
      ensures var c := AfterCreateDirectories(old(State()), p);
              if c.Ok? then r == Pass && State() == c.value
              else r == Fail(c.error) && State() == old(State())
      ensures Valid(old(State())) ==> Valid(State())
    {
      if Valid(State()) {
        CreateDirectoriesKeepsValid(State(), p);
      }
      var c := AfterCreateDirectories(State(), p);
      if c.Err? {
        return Fail(c.error);
      }
      dirs := c.value.dirs;
      r := Pass;
    }

    method Copy(body: Bytes, target: Path) returns (r: Outcome<IOError>)
      modifies this
      ensures var c := AfterCopy(old(State()), body, target);
              if c.Ok? then r == Pass && State() == c.value
              else r == Fail(c.error) && State() == old(State())
      ensures Valid(old(State())) ==> Valid(State())
    {
      if Valid(State()) {
        CopyKeepsValid(State(), body, target);
      }
      var c := AfterCopy(State(), body, target);
      if c.Err? {
        return Fail(c.error);
      }
      files := c.value.files;
      r := Pass;
    }

    /** The entries of `dir`, in an order the file system chooses. */
    method NewDirectoryStream(dir: Path) returns (stream: seq<Path>)
      requires dir in dirs
      ensures Enumerates(stream, Entries(State(), dir))
    {
      stream := Enumerate(Entries(State(), dir));
    }
  }
}
