/**
 * DependencyManager: makes sure each named jar is in a cache directory,
 * downloading it only when absent, and puts a new class-loader link, built
 * from the `.jar` entries of that directory, in front of the current one.
 */
module Dependency {
  import opened Wrappers
  import opened Orders
  import opened Files
  import opened Net

  /** A class-loader chain: the loader the manager starts from, or a URLClassLoader over `urls` with `parent` behind it. */
  datatype ClassLoader = Base | Chain(urls: seq<Path>, parent: ClassLoader)

  /** What one download (or a batch of them) did: the disk after it, the urls it opened, how it ended. */
  datatype Step = Step(disk: Disk, requests: seq<string>, outcome: Outcome<IOError>)

  /** The exception `download` throws when the fetch or the copy fails. */
  function DownloadFailure(fileName: string): IOError {
    Failed("Failed to download " + fileName)
  }

  /** Nothing is removed and no file's contents change. */
  ghost predicate Grows(d: Disk, e: Disk) {
    && d.dirs <= e.dirs
    && forall p :: p in d.files ==> p in e.files && e.files[p] == d.files[p]
  }

  /** `dirPath` is a directory already, or can be created. */
  predicate DirectoryReady(d: Disk, dirPath: Path) {
    dirPath in d.dirs || (!Exists(d, dirPath) && AfterCreateDirectories(d, dirPath).Ok?)
  }

  /** `download(fileName, fileUrl, dirPath)` on disk `d` with the network answering from `responses`. */
  function DownloadStep(d: Disk, responses: map<string, Bytes>, fileName: string, fileUrl: string, dirPath: Path): (s: Step)
    ensures s.requests == [] || s.requests == [fileUrl]
  {
    var created := if Exists(d, dirPath) then Ok(d) else AfterCreateDirectories(d, dirPath);
    if created.Err? then Step(d, [], Fail(created.error))
    else
      var d1 := created.value;
      var filePath := Child(dirPath, fileName);
      if Exists(d1, filePath) then Step(d1, [], Pass)
      else if fileUrl !in responses then Step(d1, [fileUrl], Fail(DownloadFailure(fileName)))
      else
        var copied := AfterCopy(d1, responses[fileUrl], filePath);
        if copied.Err? then Step(d1, [fileUrl], Fail(DownloadFailure(fileName)))
        else Step(copied.value, [fileUrl], Pass)
  }

  /** An entry of `dependencies.entrySet()`: a jar name and its url. */
  type Entry = (string, string)

  /**
   * The for-each loop of `download(dependencies, dirPath)` over any per-entry
   * step: runs `step` on `entries` in order and stops at the first failure.
   */
  function Run(step: (Disk, Entry) -> Step, d: Disk, entries: seq<Entry>): Step
    decreases |entries|
  {
    if entries == [] then Step(d, [], Pass)
    else
      var first := step(d, entries[0]);
      if first.outcome.Fail? then first
      else
        var rest := Run(step, first.disk, entries[1..]);
        Step(rest.disk, first.requests + rest.requests, rest.outcome)
  }

  /** The loop's step: `download(e.getKey(), e.getValue(), dirPath)`. */
  function DownloadOf(responses: map<string, Bytes>, dirPath: Path): (Disk, Entry) -> Step {
    (d: Disk, e: Entry) => DownloadStep(d, responses, e.0, e.1, dirPath)
  }

  /** `download(dependencies, dirPath)` visiting the map's entries in the order `entries`. */
  function DownloadBatch(d: Disk, responses: map<string, Bytes>, entries: seq<Entry>, dirPath: Path): Step {
    Run(DownloadOf(responses, dirPath), d, entries)
  }

  /** The filter of `loadDir`: the whole path string must end with ".jar". */
  predicate IsJar(p: Path) {
    EndsWith(ToString(p), ".jar")
  }

  /** The urls `loadDir` collects from a stream of entries. */
  function JarUrls(stream: seq<Path>): (urls: seq<Path>)
    ensures forall p :: p in urls ==> p in stream && IsJar(p)
    ensures forall p :: p in stream && IsJar(p) ==> p in urls
    ensures |urls| <= |stream|
  {
    if stream == [] then []
    else
      var last := stream[|stream| - 1];
      JarUrls(stream[..|stream| - 1]) + if IsJar(last) then [last] else []
  }

  /** Running `step` over `rest` from disk `d`, after the urls `done`, ends as `whole`. */
  ghost predicate Resumes(whole: Step, step: (Disk, Entry) -> Step, d: Disk, done: seq<string>, rest: seq<Entry>) {
    var r := Run(step, d, rest);
    whole == Step(r.disk, done + r.requests, r.outcome)
  }

  /** One pass of the loop: entry `i` either ends the run with its failure or leaves the rest to run. */
  lemma RunAdvance(whole: Step, step: (Disk, Entry) -> Step, d: Disk, done: seq<string>, entries: seq<Entry>, i: nat)
    requires i < |entries|
    requires Resumes(whole, step, d, done, entries[i..])
    ensures var first := step(d, entries[i]);
            && (first.outcome.Fail? ==> whole == Step(first.disk, done + first.requests, first.outcome))
            && (first.outcome.Pass? ==> Resumes(whole, step, first.disk, done + first.requests, entries[i + 1..]))
  {
    assert entries[i..][0] == entries[i] && entries[i..][1..] == entries[i + 1..];
    var first := step(d, entries[i]);
    if first.outcome.Pass? {
      var rest := Run(step, first.disk, entries[i + 1..]);
      assert done + (first.requests + rest.requests) == (done + first.requests) + rest.requests;
    }
  }

  /** A prefix of the run that starts with a successful step is that step followed by the rest of the prefix. */
  lemma RunPrefixCons(step: (Disk, Entry) -> Step, d: Disk, entries: seq<Entry>, j: nat)
    requires j < |entries|
    requires step(d, entries[0]).outcome.Pass?
    ensures var first := step(d, entries[0]);
            var pre := Run(step, first.disk, entries[1..][..j]);
            Run(step, d, entries[..j + 1]) == Step(pre.disk, first.requests + pre.requests, pre.outcome)
  {
    assert entries[..j + 1][0] == entries[0] && entries[..j + 1][1..] == entries[1..][..j];
  }

  /** A failed run succeeds on the entries before some index `i`, fails on entry `i`, and does nothing after it. */
  lemma {:induction false} RunStopsAtFirstFailure(step: (Disk, Entry) -> Step, d: Disk, entries: seq<Entry>)
    returns (i: nat)
    requires Run(step, d, entries).outcome.Fail?
    ensures i < |entries|
    ensures var pre := Run(step, d, entries[..i]);
            var failed := step(pre.disk, entries[i]);
            && pre.outcome.Pass?
            && failed.outcome.Fail?
            && Run(step, d, entries) == Step(failed.disk, pre.requests + failed.requests, failed.outcome)
    decreases |entries|
  {
    var first := step(d, entries[0]);
    if first.outcome.Fail? {
      i := 0;
      assert [] + first.requests == first.requests;
    } else {
      var j := RunStopsAtFirstFailure(step, first.disk, entries[1..]);
      i := j + 1;
      RunPrefixCons(step, d, entries, j);
      assert entries[i] == entries[1..][j];
      var pre := Run(step, first.disk, entries[1..][..j]);
      var failed := step(pre.disk, entries[i]);
      assert first.requests + (pre.requests + failed.requests) == (first.requests + pre.requests) + failed.requests;
    }
  }

  class DependencyManager {
    var urlClassLoader: ClassLoader

    /** `new DependencyManager(clazz)`: starts from the class's own loader. */
    constructor (loader: ClassLoader)
      ensures urlClassLoader == loader
    {
      urlClassLoader := loader;
    }

    method Download(fileName: string, fileUrl: string, dirPath: Path, fs: FileSystem, net: Network) returns (r: Outcome<IOError>)
      modifies fs, net
      ensures var s := DownloadStep(old(fs.State()), net.responses, fileName, fileUrl, dirPath);
              fs.State() == s.disk && net.requests == old(net.requests) + s.requests && r == s.outcome
    {
      if !Exists(fs.State(), dirPath) {
        var created := fs.CreateDirectories(dirPath);
        if created.Fail? {
          return created;
        }
      }
      var filePath := Child(dirPath, fileName);
      if !Exists(fs.State(), filePath) {
        var body := net.OpenStream(fileUrl);
        if body.None? {
          return Fail(DownloadFailure(fileName));
        }
        var copied := fs.Copy(body.value, filePath);
        if copied.Fail? {
          return Fail(DownloadFailure(fileName));
        }
      }
      r := Pass;
    }

    /** `download(dependencies, dirPath)`: the map's entries in its iteration order, one download each. */
    method DownloadAll(deps: map<string, string>, dirPath: Path, fs: FileSystem, net: Network) returns (r: Outcome<IOError>, ghost order: seq<Entry>)
      modifies fs, net
      ensures Enumerates(order, deps.Items)
      ensures var s := DownloadBatch(old(fs.State()), net.responses, order, dirPath);
              fs.State() == s.disk && net.requests == old(net.requests) + s.requests && r == s.outcome
    {
      var entries := Enumerate(deps.Items);
      r := DownloadEach(entries, dirPath, fs, net);
      order := entries;
    }

    /** The loop of `download(dependencies, dirPath)`: downloads `entries` in order, stopping at the first failure. */
    method DownloadEach(entries: seq<Entry>, dirPath: Path, fs: FileSystem, net: Network) returns (r: Outcome<IOError>)
      modifies fs, net
      ensures var s := DownloadBatch(old(fs.State()), net.responses, entries, dirPath);
              fs.State() == s.disk && net.requests == old(net.requests) + s.requests && r == s.outcome
    {
      ghost var step := DownloadOf(net.responses, dirPath);
      ghost var whole := Run(step, fs.State(), entries);
      ghost var req0 := net.requests;
      ghost var done: seq<string> := [];
      assert entries[0..] == entries;
      var i := 0;
      while i < |entries|
        invariant 0 <= i <= |entries|
        invariant net.requests == req0 + done
        invariant Resumes(whole, step, fs.State(), done, entries[i..])
      {
        r, done := DownloadEntry(entries, i, dirPath, fs, net, whole, req0, done);
        if r.Fail? {
          return;
        }
        i := i + 1;
      }
      assert done + [] == done;
      r := Pass;
    }

    /** One pass of the loop: downloads entry `i`, then either the batch has ended with its failure or the entries after `i` remain. */
    method DownloadEntry(entries: seq<Entry>, i: nat, dirPath: Path, fs: FileSystem, net: Network, ghost whole: Step, ghost req0: seq<string>, ghost done: seq<string>)
      returns (r: Outcome<IOError>, ghost done': seq<string>)
      requires i < |entries|
      requires net.requests == req0 + done
      requires Resumes(whole, DownloadOf(net.responses, dirPath), fs.State(), done, entries[i..])
      modifies fs, net
      ensures net.requests == req0 + done'
      ensures r.Fail? ==> whole == Step(fs.State(), done', r)
      ensures r.Pass? ==> Resumes(whole, DownloadOf(net.responses, dirPath), fs.State(), done', entries[i + 1..])
    {
      RunAdvance(whole, DownloadOf(net.responses, dirPath), fs.State(), done, entries, i);
      ghost var step := DownloadStep(fs.State(), net.responses, entries[i].0, entries[i].1, dirPath);
      r := Download(entries[i].0, entries[i].1, dirPath, fs, net);
      done' := done + step.requests;
    }

    /** `loadDir(dirPath)`; the ghost `stream` is the order the directory stream chose. */
    method LoadDir(dirPath: Path, fs: FileSystem) returns (ghost stream: seq<Path>)
      modifies this
      ensures dirPath !in fs.dirs ==> urlClassLoader == old(urlClassLoader)
      ensures dirPath in fs.dirs ==>
                && Enumerates(stream, Entries(fs.State(), dirPath))
                && urlClassLoader == Chain(JarUrls(stream), old(urlClassLoader))
    {
      stream := [];
      if dirPath !in fs.dirs {
        return;
      }
      var entries := fs.NewDirectoryStream(dirPath);
      var urls: seq<Path> := [];
      var i := 0;
      while i < |entries|
        invariant 0 <= i <= |entries|
        invariant urls == JarUrls(entries[..i])
      {
        assert entries[..i + 1][..i] == entries[..i];
        if IsJar(entries[i]) {
          urls := urls + [entries[i]];
        }
        i := i + 1;
      }
      assert entries[..i] == entries;
      urlClassLoader := Chain(urls, urlClassLoader);
      stream := entries;
    }
  }

  // ---- download(fileName, fileUrl, dirPath) ----

  /** Presence of the file alone is a cache hit: nothing is fetched and the disk is left alone. */
  lemma DownloadCacheHit(d: Disk, responses: map<string, Bytes>, fileName: string, fileUrl: string, dirPath: Path)
    requires Valid(d) && Exists(d, Child(dirPath, fileName))
    ensures DownloadStep(d, responses, fileName, fileUrl, dirPath) == Step(d, [], Pass)
  {
    assert dirPath in d.dirs;
  }

  /** A missing `dirPath` is created before anything else; a successful download leaves it a directory. */
  lemma DownloadPreparesDirectory(d: Disk, responses: map<string, Bytes>, fileName: string, fileUrl: string, dirPath: Path)
    ensures var s := DownloadStep(d, responses, fileName, fileUrl, dirPath);
            && (!Exists(d, dirPath) && AfterCreateDirectories(d, dirPath).Err? ==>
                  s == Step(d, [], Fail(FileSystemError(dirPath))))
            && (!Exists(d, dirPath) && AfterCreateDirectories(d, dirPath).Ok? ==>
                  AfterCreateDirectories(d, dirPath).value.dirs <= s.disk.dirs)
            && (Valid(d) && s.outcome.Pass? ==> dirPath in s.disk.dirs)
  {
  }

  /** An absent file is fetched once; the download succeeds exactly when the url answers and the directory is usable, and then writes that one file. */
  lemma DownloadFetchesMissing(d: Disk, responses: map<string, Bytes>, fileName: string, fileUrl: string, dirPath: Path)
    requires !Exists(d, Child(dirPath, fileName))
    ensures var s := DownloadStep(d, responses, fileName, fileUrl, dirPath);
            && (DirectoryReady(d, dirPath) ==> s.requests == [fileUrl])
            && (s.outcome.Pass? <==> fileUrl in responses && DirectoryReady(d, dirPath))
            && (s.outcome.Pass? ==>
                  s.disk == Disk(d.dirs + (if dirPath in d.dirs then {} else AncestorsOrSelf(dirPath)),
                                 d.files[Child(dirPath, fileName) := responses[fileUrl]]))
  {
    var filePath := Child(dirPath, fileName);
    assert Depth(filePath) > Depth(dirPath);
    if !Exists(d, dirPath) && AfterCreateDirectories(d, dirPath).Ok? {
      assert !Exists(AfterCreateDirectories(d, dirPath).value, filePath);
    }
  }

  /** A failed download names the file, or is the directory's own creation failure that changed nothing. */
  lemma DownloadFailureReported(d: Disk, responses: map<string, Bytes>, fileName: string, fileUrl: string, dirPath: Path)
    ensures var s := DownloadStep(d, responses, fileName, fileUrl, dirPath);
            s.outcome.Fail? ==>
              || (s.outcome.error == Failed("Failed to download " + fileName) && s.requests == [fileUrl] && s.disk.files == d.files)
              || (s.outcome.error == FileSystemError(dirPath) && s.requests == [] && s.disk == d)
  {
  }

  /** After a successful download the file is there. */
  lemma DownloadLeavesFile(d: Disk, responses: map<string, Bytes>, fileName: string, fileUrl: string, dirPath: Path)
    ensures var s := DownloadStep(d, responses, fileName, fileUrl, dirPath);
            s.outcome.Pass? ==> Exists(s.disk, Child(dirPath, fileName))
  {
  }

  /** A download removes nothing, rewrites no file, and keeps the disk well formed. */
  lemma StepGrows(d: Disk, responses: map<string, Bytes>, fileName: string, fileUrl: string, dirPath: Path)
    ensures var s := DownloadStep(d, responses, fileName, fileUrl, dirPath);
            Grows(d, s.disk) && (Valid(d) ==> Valid(s.disk))
  {
    if Valid(d) {
      CreateDirectoriesKeepsValid(d, dirPath);
      var created := if Exists(d, dirPath) then Ok(d) else AfterCreateDirectories(d, dirPath);
      if created.Ok? && fileUrl in responses {
        CopyKeepsValid(created.value, responses[fileUrl], Child(dirPath, fileName));
      }
    }
  }

  /** Repeating a successful download is a pure cache hit. */
  lemma DownloadIdempotent(d: Disk, responses: map<string, Bytes>, fileName: string, fileUrl: string, dirPath: Path)
    requires Valid(d)
    ensures var s := DownloadStep(d, responses, fileName, fileUrl, dirPath);
            s.outcome.Pass? ==> DownloadStep(s.disk, responses, fileName, fileUrl, dirPath) == Step(s.disk, [], Pass)
  {
    var s := DownloadStep(d, responses, fileName, fileUrl, dirPath);
    if s.outcome.Pass? {
      DownloadLeavesFile(d, responses, fileName, fileUrl, dirPath);
      StepGrows(d, responses, fileName, fileUrl, dirPath);
      DownloadCacheHit(s.disk, responses, fileName, fileUrl, dirPath);
    }
  }

  /** Creating a directory adds no entry to it. */
  lemma CreatedEntries(d: Disk, dirPath: Path)
    requires AfterCreateDirectories(d, dirPath).Ok?
    ensures Entries(AfterCreateDirectories(d, dirPath).value, dirPath) == Entries(d, dirPath)
  {
    var e := AfterCreateDirectories(d, dirPath).value;
    forall p | p in Entries(e, dirPath)
      ensures p in Entries(d, dirPath)
    {
      assert Depth(p) > Depth(dirPath);
    }
  }

  /** One download adds at most its own file to the directory's entries. */
  lemma StepEntries(d: Disk, responses: map<string, Bytes>, fileName: string, fileUrl: string, dirPath: Path)
    ensures var s := DownloadStep(d, responses, fileName, fileUrl, dirPath);
            Entries(s.disk, dirPath) == Entries(d, dirPath) + if s.outcome.Pass? then {Child(dirPath, fileName)} else {}
  {
    if !Exists(d, dirPath) && AfterCreateDirectories(d, dirPath).Ok? {
      CreatedEntries(d, dirPath);
    }
  }

  // ---- download(dependencies, dirPath) ----

  /** A batch removes nothing, rewrites no file, and keeps the disk well formed, whether it succeeds or not. */
  lemma {:induction false} BatchGrows(d: Disk, responses: map<string, Bytes>, entries: seq<Entry>, dirPath: Path)
    ensures var s := DownloadBatch(d, responses, entries, dirPath);
            Grows(d, s.disk) && (Valid(d) ==> Valid(s.disk))
    decreases |entries|
  {
    if entries != [] {
      StepGrows(d, responses, entries[0].0, entries[0].1, dirPath);
      var first := DownloadStep(d, responses, entries[0].0, entries[0].1, dirPath);
      if first.outcome.Pass? {
        BatchGrows(first.disk, responses, entries[1..], dirPath);
      }
    }
  }

  /** When the batch succeeds, every name is present in the directory. */
  lemma {:induction false} BatchSuccessPresent(d: Disk, responses: map<string, Bytes>, entries: seq<Entry>, dirPath: Path)
    ensures var s := DownloadBatch(d, responses, entries, dirPath);
            s.outcome.Pass? ==> forall e :: e in entries ==> Exists(s.disk, Child(dirPath, e.0))
    decreases |entries|
  {
    if entries != [] {
      var first := DownloadStep(d, responses, entries[0].0, entries[0].1, dirPath);
      if first.outcome.Pass? {
        DownloadLeavesFile(d, responses, entries[0].0, entries[0].1, dirPath);
        BatchGrows(first.disk, responses, entries[1..], dirPath);
        BatchSuccessPresent(first.disk, responses, entries[1..], dirPath);
        assert forall e :: e in entries ==> e == entries[0] || e in entries[1..];
      }
    }
  }

  /** The batch runs the entries before some index `i` successfully, fails on entry `i`, and does nothing after it. */
  lemma BatchStopsAtFirstFailure(d: Disk, responses: map<string, Bytes>, entries: seq<Entry>, dirPath: Path)
    returns (i: nat)
    requires DownloadBatch(d, responses, entries, dirPath).outcome.Fail?
    ensures i < |entries|
    ensures var pre := DownloadBatch(d, responses, entries[..i], dirPath);
            var failed := DownloadStep(pre.disk, responses, entries[i].0, entries[i].1, dirPath);
            && pre.outcome.Pass?
            && failed.outcome.Fail?
            && DownloadBatch(d, responses, entries, dirPath) == Step(failed.disk, pre.requests + failed.requests, failed.outcome)
  {
    i := RunStopsAtFirstFailure(DownloadOf(responses, dirPath), d, entries);
  }

  /** A failed batch names its failing entry, and every entry before it stays cached (no rollback). */
  lemma BatchFailureKeepsEarlier(d: Disk, responses: map<string, Bytes>, entries: seq<Entry>, dirPath: Path)
    returns (i: nat)
    requires DownloadBatch(d, responses, entries, dirPath).outcome.Fail?
    ensures i < |entries|
    ensures var pre := DownloadBatch(d, responses, entries[..i], dirPath);
            var failed := DownloadStep(pre.disk, responses, entries[i].0, entries[i].1, dirPath);
            && pre.outcome.Pass?
            && failed.outcome.Fail?
            && DownloadBatch(d, responses, entries, dirPath) == Step(failed.disk, pre.requests + failed.requests, failed.outcome)
    ensures var s := DownloadBatch(d, responses, entries, dirPath);
            && (forall j :: 0 <= j < i ==> Exists(s.disk, Child(dirPath, entries[j].0)))
            && (s.outcome.error == Failed("Failed to download " + entries[i].0) || s.outcome.error == FileSystemError(dirPath))
  {
    i := BatchStopsAtFirstFailure(d, responses, entries, dirPath);
    var pre := DownloadBatch(d, responses, entries[..i], dirPath);
    BatchSuccessPresent(d, responses, entries[..i], dirPath);
    DownloadFailureReported(pre.disk, responses, entries[i].0, entries[i].1, dirPath);
    StepGrows(pre.disk, responses, entries[i].0, entries[i].1, dirPath);
    assert forall j :: 0 <= j < i ==> entries[j] in entries[..i];
  }

  /** On a well-formed disk whose directory is usable, the batch succeeds when every url answers. */
  lemma {:induction false} BatchSucceeds(d: Disk, responses: map<string, Bytes>, entries: seq<Entry>, dirPath: Path)
    requires Valid(d) && DirectoryReady(d, dirPath)
    requires forall e :: e in entries ==> e.1 in responses
    ensures DownloadBatch(d, responses, entries, dirPath).outcome.Pass?
    decreases |entries|
  {
    if entries != [] {
      var e := entries[0];
      var first := DownloadStep(d, responses, e.0, e.1, dirPath);
      StepGrows(d, responses, e.0, e.1, dirPath);
      if Exists(d, Child(dirPath, e.0)) {
        assert dirPath in d.dirs;
        DownloadCacheHit(d, responses, e.0, e.1, dirPath);
      } else {
        DownloadFetchesMissing(d, responses, e.0, e.1, dirPath);
      }
      DownloadPreparesDirectory(d, responses, e.0, e.1, dirPath);
      assert forall x :: x in entries[1..] ==> x in entries;
      BatchSucceeds(first.disk, responses, entries[1..], dirPath);
    }
  }

  /** An entry whose file is absent and whose url does not answer makes the batch fail, unless an earlier entry of the same name already failed or fetched it. */
  lemma {:induction false} BatchFailsOnUnreachable(d: Disk, responses: map<string, Bytes>, entries: seq<Entry>, dirPath: Path, k: nat)
    requires Valid(d)
    requires k < |entries|
    requires !Exists(d, Child(dirPath, entries[k].0))
    requires entries[k].1 !in responses
    requires forall j :: 0 <= j < k ==> entries[j].0 != entries[k].0
    ensures DownloadBatch(d, responses, entries, dirPath).outcome.Fail?
    decreases |entries|
  {
    var first := DownloadStep(d, responses, entries[0].0, entries[0].1, dirPath);
    if k == 0 {
      DownloadFetchesMissing(d, responses, entries[0].0, entries[0].1, dirPath);
    } else if first.outcome.Pass? {
      StepGrows(d, responses, entries[0].0, entries[0].1, dirPath);
      StepEntries(d, responses, entries[0].0, entries[0].1, dirPath);
      assert Child(dirPath, entries[k].0) !in Entries(first.disk, dirPath);
      assert entries[1..][k - 1] == entries[k];
      BatchFailsOnUnreachable(first.disk, responses, entries[1..], dirPath, k - 1);
    }
  }

  /** A successful batch adds exactly one entry per name to the directory. */
  lemma {:induction false} BatchEntries(d: Disk, responses: map<string, Bytes>, entries: seq<Entry>, dirPath: Path)
    ensures var s := DownloadBatch(d, responses, entries, dirPath);
            s.outcome.Pass? ==> Entries(s.disk, dirPath) == Entries(d, dirPath) + set e | e in entries :: Child(dirPath, e.0)
    decreases |entries|
  {
    if entries != [] {
      var first := DownloadStep(d, responses, entries[0].0, entries[0].1, dirPath);
      if first.outcome.Pass? {
        StepEntries(d, responses, entries[0].0, entries[0].1, dirPath);
        BatchEntries(first.disk, responses, entries[1..], dirPath);
        assert (set e | e in entries :: Child(dirPath, e.0))
            == {Child(dirPath, entries[0].0)} + set e | e in entries[1..] :: Child(dirPath, e.0);
      }
    }
  }

  lemma {:induction false} ChildrenCount(dirPath: Path, names: set<string>)
    ensures |set k | k in names :: Child(dirPath, k)| == |names|
    decreases names
  {
    if names != {} {
      var k :| k in names;
      ChildrenCount(dirPath, names - {k});
      assert (set x | x in names :: Child(dirPath, x))
          == (set x | x in names - {k} :: Child(dirPath, x)) + {Child(dirPath, k)};
    }
  }

  /** A download creates no subdirectory of `dirPath`: `createDirectories` adds only `dirPath` and its ancestors. */
  lemma StepAddsNoChildDirectory(d: Disk, responses: map<string, Bytes>, fileName: string, fileUrl: string, dirPath: Path)
    ensures var s := DownloadStep(d, responses, fileName, fileUrl, dirPath);
            forall k :: Child(dirPath, k) in s.disk.dirs ==> Child(dirPath, k) in d.dirs
  {
    var s := DownloadStep(d, responses, fileName, fileUrl, dirPath);
    forall k | Child(dirPath, k) in s.disk.dirs
      ensures Child(dirPath, k) in d.dirs
    {
      assert Depth(Child(dirPath, k)) > Depth(dirPath);
    }
  }

  /** After a successful batch, each name is a regular file in the directory, unless a directory of that name was there before. */
  lemma {:induction false} BatchFiles(d: Disk, responses: map<string, Bytes>, entries: seq<Entry>, dirPath: Path)
    ensures var s := DownloadBatch(d, responses, entries, dirPath);
            s.outcome.Pass? ==> forall e :: e in entries ==> Child(dirPath, e.0) in d.dirs || Child(dirPath, e.0) in s.disk.files
    decreases |entries|
  {
    if entries != [] {
      var first := DownloadStep(d, responses, entries[0].0, entries[0].1, dirPath);
      if first.outcome.Pass? {
        var s := DownloadBatch(d, responses, entries, dirPath);
        DownloadLeavesFile(d, responses, entries[0].0, entries[0].1, dirPath);
        StepAddsNoChildDirectory(d, responses, entries[0].0, entries[0].1, dirPath);
        BatchGrows(first.disk, responses, entries[1..], dirPath);
        BatchFiles(first.disk, responses, entries[1..], dirPath);
        assert forall e :: e in entries ==> e == entries[0] || e in entries[1..];
      }
    }
  }

  /** Against a directory with no entries, a successful batch leaves exactly one file per key. */
  lemma BatchFillsEmptyDirectory(d: Disk, responses: map<string, Bytes>, deps: map<string, string>, entries: seq<Entry>, dirPath: Path)
    requires Enumerates(entries, deps.Items)
    requires Entries(d, dirPath) == {}
    ensures var s := DownloadBatch(d, responses, entries, dirPath);
            s.outcome.Pass? ==>
              && Entries(s.disk, dirPath) == (set k | k in deps :: Child(dirPath, k))
              && |Entries(s.disk, dirPath)| == |deps|
              && forall k :: k in deps ==> Child(dirPath, k) in s.disk.files
  {
    var s := DownloadBatch(d, responses, entries, dirPath);
    BatchEntries(d, responses, entries, dirPath);
    BatchFiles(d, responses, entries, dirPath);
    forall k | k in deps
      ensures Child(dirPath, k) in set e | e in entries :: Child(dirPath, e.0)
      ensures s.outcome.Pass? ==> Child(dirPath, k) in s.disk.files
    {
      assert (k, deps[k]) in deps.Items;
      assert Child(dirPath, k) !in Entries(d, dirPath);
    }
    assert (set e | e in entries :: Child(dirPath, e.0)) == (set k | k in deps :: Child(dirPath, k));
    ChildrenCount(dirPath, deps.Keys);
  }

  /** An empty map downloads nothing. */
  lemma BatchOfNothing(d: Disk, responses: map<string, Bytes>, deps: map<string, string>, entries: seq<Entry>, dirPath: Path)
    requires Enumerates(entries, deps.Items) && deps == map[]
    ensures DownloadBatch(d, responses, entries, dirPath) == Step(d, [], Pass)
  {
    assert deps.Items == {};
    EnumeratesSize(entries, deps.Items);
  }

  // ---- loadDir(dirPath) ----

  /** The filter keeps the stream's order: it distributes over concatenation. */
  lemma {:induction false} JarUrlsAppend(s: seq<Path>, t: seq<Path>)
    ensures JarUrls(s + t) == JarUrls(s) + JarUrls(t)
    decreases |t|
  {
    if t == [] {
      assert s + t == s;
    } else {
      var t' := t[..|t| - 1];
      assert (s + t)[..|s + t| - 1] == s + t';
      assert (s + t)[|s + t| - 1] == t[|t| - 1];
      JarUrlsAppend(s, t');
    }
  }

  /** For a directory entry, the whole-path test is the test on the entry's own name. */
  lemma JarSuffixOnName(dir: Path, name: string)
    ensures IsJar(Child(dir, name)) <==> EndsWith(name, ".jar")
  {
    var a := ToString(dir) + "/";
    var t := ToString(Child(dir, name));
    assert t == a + name;
    if |name| >= 4 {
      assert t[|t| - 4..] == name[|name| - 4..];
    } else if |t| >= 4 {
      var k := |ToString(dir)| - (|t| - 4);
      assert t[|t| - 4..][k] == '/';
    }
  }

  /** Listing a directory and filtering it links exactly the entries whose own name ends with ".jar". */
  lemma LoadSelectsJarEntries(d: Disk, dir: Path, stream: seq<Path>)
    requires Enumerates(stream, Entries(d, dir))
    ensures forall p :: p in JarUrls(stream) <==> p in Entries(d, dir) && EndsWith(p.name, ".jar")
  {
    forall p | p in Entries(d, dir)
      ensures IsJar(p) <==> EndsWith(p.name, ".jar")
    {
      JarSuffixOnName(dir, p.name);
    }
  }

  /** A cache holding a.jar, b.jar and readme.txt links exactly the two jars, whatever the stream order. */
  lemma LoadSkipsNonJars(d: Disk, libs: Path, stream: seq<Path>)
    requires Entries(d, libs) == {Child(libs, "a.jar"), Child(libs, "b.jar"), Child(libs, "readme.txt")}
    requires Enumerates(stream, Entries(d, libs))
    ensures forall p :: p in JarUrls(stream) <==> p == Child(libs, "a.jar") || p == Child(libs, "b.jar")
  {
    LoadSelectsJarEntries(d, libs, stream);
    assert "readme.txt"[6..] == ".txt";
    assert "a.jar"[1..] == ".jar";
    assert "b.jar"[1..] == ".jar";
  }

  /** A subdirectory whose name ends in ".jar" passes the filter too. */
  lemma LoadKeepsJarNamedDirectory(d: Disk, libs: Path, stream: seq<Path>)
    requires Child(libs, "classes.jar") in d.dirs && Entries(d, libs) == {Child(libs, "classes.jar")}
    requires Enumerates(stream, Entries(d, libs))
    ensures JarUrls(stream) == [Child(libs, "classes.jar")]
  {
    var x := Child(libs, "classes.jar");
    EnumeratesSingleton(stream, x);
    JarSuffixOnName(libs, "classes.jar");
    assert "classes.jar"[7..] == ".jar";
    assert stream[..0] == [];
  }
}
