# VelocityCore dependency pipeline, modelled in Dafny

VelocityCore is a plugin for the Velocity proxy. Its only real logic is the
dependency pipeline that runs during proxy initialization:

1. It reads the bundled resource `dependencies.json`, a JSON array of
   `{name, url}` records, into a map from jar name to url.
2. It creates `<dataDirectory>/libs`.
3. For each map entry it downloads the jar into that directory, unless a
   file or directory with that name already exists there.
4. It builds a new `URLClassLoader` link from every `.jar` entry of the
   directory, with the previous loader as the parent.

This project models that pipeline on abstract state and proves what each
step promises.

- `files.dfy` (module `Files`): the file system as a value `Disk`, a set
  of directories plus a map from file path to contents. Paths are a
  datatype: a root string, or a child built by `Path.resolve`. The `java.nio`
  operations the code calls are spec functions (`AfterCreateDirectories`,
  `AfterCopy`, `Entries`). A `FileSystem` class updates its fields as those
  functions say.
- `net.dfy` (module `Net`): the network. Each url either yields a body or
  fails. Every attempt to open a url is appended to `requests`, so "no
  network access" can be stated.
- `orders.dfy` (module `Orders`): iteration order. `HashMap` and
  `DirectoryStream` promise no order, so an order is any duplicate-free
  listing of the set (`Enumerates`). `Enumerate` picks one
  nondeterministically.
- `dependency.dfy` (module `Dependency`): `DependencyManager`. It holds
  the `urlClassLoader` field (a `ClassLoader` chain datatype) and the
  methods `Download`, `DownloadAll` (the `Map` overload of `download`,
  whose loop is `DownloadEach`) and `LoadDir`. Each method is proved
  against a spec function (`DownloadStep`, `DownloadBatch`, `JarUrls`).
  `DownloadBatch` is `Run`, the for-each loop over any per-entry step,
  applied to `DownloadStep`; the loop's own properties (it stops at the
  first failure) are proved once about `Run`. Lemmas prove the cache-hit,
  batch and filter properties of those functions.
- `velocitycore.dfy` (module `VelocityCore`): the manifest as a datatype.
  It also holds the `put` loop (`CollectDependencies`, proved against
  `Fold`), the control flow of `loadDependencies`, and the catch in
  `onProxyInitialization`.

The model follows the code, including these surprising behaviours:

- A parse failure only logs. The pipeline goes on with the records put
  before the failing element. A document that is not an array at all
  gives an empty map. Either way the pipeline goes on: it creates the
  libs directory, the batch runs on that map, and the directory's jars
  are linked if the batch succeeds.
- An empty array returns before the directory is created. An array whose
  first element is unreadable does not return early.
- The `.jar` test is applied to the whole path string. A subdirectory
  whose name ends in `.jar` is selected too (`LoadKeepsJarNamedDirectory`).
- The extended loader is stored only in a `DependencyManager` that is a
  local variable of `loadDependencies`. Nothing installs it as the
  process-wide context. `LoadDependencies` reports, as the ghost result
  `loader`, what that local manager holds when the method ends.
- A `createDirectories` failure inside `download` propagates as it is. It
  is not wrapped in "Failed to download".

## Model

| member | source | states |
|---|---|---|
| `Files.AfterCreateDirectories` | src/main/java/dev/necr/velocitycore/dependency/DependencyManager.java:40-42 | `createDirectories` succeeds exactly when neither the path nor any ancestor is a regular file. On success the path is a directory, files are unchanged, and only the path and its ancestors are added. On failure it reports the path. |
| `Files.CreateDirectoriesKeepsValid` | src/main/java/dev/necr/velocitycore/dependency/DependencyManager.java:40-42 | `createDirectories` keeps the file system well formed: no path is both a file and a directory, and every entry sits in a directory. |
| `Files.FileSystem.CreateDirectories` | src/main/java/dev/necr/velocitycore/dependency/DependencyManager.java:40-42 | The new state is the one `AfterCreateDirectories` gives. On failure nothing changes. A well-formed file system stays well formed. |
| `Files.AfterCopy` | src/main/java/dev/necr/velocitycore/dependency/DependencyManager.java:47 | `Files.copy` succeeds exactly when the target is absent and its parent is a directory. It then adds just that file with the given bytes. On failure it reports the target. |
| `Files.CopyKeepsValid` | src/main/java/dev/necr/velocitycore/dependency/DependencyManager.java:47 | `Files.copy` keeps the file system well formed. |
| `Files.FileSystem.Copy` | src/main/java/dev/necr/velocitycore/dependency/DependencyManager.java:47 | The new state is the one `AfterCopy` gives. On failure nothing changes. A well-formed file system stays well formed. |
| `Files.ToString` | src/main/java/dev/necr/velocitycore/dependency/DependencyManager.java:81 | `Path.toString()`: a child's string is its parent's, then "/", then its name. |
| `Files.EndsWith` | src/main/java/dev/necr/velocitycore/dependency/DependencyManager.java:81 | `String.endsWith`: the suffix is no longer than the string and equals its last characters. |
| `Files.Exists` | src/main/java/dev/necr/velocitycore/dependency/DependencyManager.java:40-45 | `Files.exists` holds for a directory and for a regular file alike. |
| `Files.Entries` | src/main/java/dev/necr/velocitycore/dependency/DependencyManager.java:79-80 | A directory stream yields the direct children of the directory, files and subdirectories alike. |
| `Files.FileSystem.NewDirectoryStream` | src/main/java/dev/necr/velocitycore/dependency/DependencyManager.java:79 | Lists every direct entry of the directory once, files and subdirectories alike, in an order the file system chooses. |
| `Net.Network.OpenStream` | src/main/java/dev/necr/velocitycore/dependency/DependencyManager.java:46 | Records the url as requested. Returns the url's body, or fails when the url does not answer. |
| `Orders.Enumerate` | src/main/java/dev/necr/velocitycore/dependency/DependencyManager.java:79-80 | Produces some duplicate-free listing of a set. It stands for the unspecified order of `DirectoryStream` (and of `entrySet` at line 62). |
| `Orders.EnumeratesSize` | src/main/java/dev/necr/velocitycore/dependency/DependencyManager.java:62 | Any such listing is exactly as long as the set it lists, so an iteration visits as many entries as the map holds. |
| `Dependency.DependencyManager.constructor` | src/main/java/dev/necr/velocitycore/dependency/DependencyManager.java:25-29 | The manager starts from the class loader it is given. |
| `Dependency.DownloadStep` | src/main/java/dev/necr/velocitycore/dependency/DependencyManager.java:39-52 | One download opens at most one url, the given one. |
| `Dependency.StepGrows` | src/main/java/dev/necr/velocitycore/dependency/DependencyManager.java:39-52 | One download never removes anything or changes a file's contents, and it keeps the file system well formed. |
| `Dependency.DownloadFailure` | src/main/java/dev/necr/velocitycore/dependency/DependencyManager.java:48-49 | A failed fetch or copy is rethrown as an IOException whose message is "Failed to download " followed by the file name. |
| `Dependency.DependencyManager.Download` | src/main/java/dev/necr/velocitycore/dependency/DependencyManager.java:39-52 | The disk, the request log and the outcome after the call are those `DownloadStep` gives for the old disk. |
| `Dependency.DownloadPreparesDirectory` | src/main/java/dev/necr/velocitycore/dependency/DependencyManager.java:40-42 | A missing directory is created first. If that fails, nothing is fetched and nothing changes. Once created it stays. After any successful download the directory exists. |
| `Dependency.DownloadCacheHit` | src/main/java/dev/necr/velocitycore/dependency/DependencyManager.java:44-45 | If `dir/name` exists, the download fetches nothing and leaves the disk unchanged. Presence alone counts. |
| `Dependency.DownloadFetchesMissing` | src/main/java/dev/necr/velocitycore/dependency/DependencyManager.java:45-47 | If the file is absent and the directory is usable, the url is opened once. The download succeeds exactly when the url answers and the directory is usable. On success the only changes are the new file holding the fetched bytes and the directories created. |
| `Dependency.DownloadFailureReported` | src/main/java/dev/necr/velocitycore/dependency/DependencyManager.java:48-49 | A failure is either "Failed to download " + name, after one request and with no file written, or the directory's creation error, with no request and no change. |
| `Dependency.DownloadLeavesFile` | src/main/java/dev/necr/velocitycore/dependency/DependencyManager.java:44-47 | After a successful download, `dir/name` exists. |
| `Dependency.DownloadIdempotent` | src/main/java/dev/necr/velocitycore/dependency/DependencyManager.java:44-51 | Repeating a successful download is a no-op: no request, same disk, success. |
| `Dependency.Run` | src/main/java/dev/necr/velocitycore/dependency/DependencyManager.java:62-64 | The for-each loop over any per-entry step: runs the entries in order, and the first failing step ends the loop with its own result. |
| `Dependency.DownloadOf` | src/main/java/dev/necr/velocitycore/dependency/DependencyManager.java:63 | The loop's step for one entry is `download(entry.getKey(), entry.getValue(), dirPath)`. |
| `Dependency.DownloadBatch` | src/main/java/dev/necr/velocitycore/dependency/DependencyManager.java:61-65 | `download(dependencies, dirPath)` is that loop with `download(key, value, dirPath)` as its step. |
| `Dependency.RunAdvance` | src/main/java/dev/necr/velocitycore/dependency/DependencyManager.java:62-64 | One pass of the for-each loop: the entry's step either ends the whole run with its own failure, or leaves the rest of the entries to finish the run. |
| `Dependency.RunStopsAtFirstFailure` | src/main/java/dev/necr/velocitycore/dependency/DependencyManager.java:62-64 | A failed run succeeds on the entries before some index, fails on that entry, and its result is exactly that state. Later entries never run. An exception leaves the loop. |
| `Dependency.DependencyManager.DownloadAll` | src/main/java/dev/necr/velocitycore/dependency/DependencyManager.java:61-65 | Visits every entry of the map once, in some order. The disk, the request log and the outcome are those `DownloadBatch` gives for that order. |
| `Dependency.DependencyManager.DownloadEach` | src/main/java/dev/necr/velocitycore/dependency/DependencyManager.java:62-64 | The loop's disk, request log and outcome are those `DownloadBatch` gives for the listed entries, stopping at the first failure. |
| `Dependency.DependencyManager.DownloadEntry` | src/main/java/dev/necr/velocitycore/dependency/DependencyManager.java:63 | One pass of the loop's body preserves the loop's account of the batch: it ends the batch with its failure or leaves the later entries to run. |
| `Dependency.BatchGrows` | src/main/java/dev/necr/velocitycore/dependency/DependencyManager.java:61-65 | A batch never removes anything or rewrites a file, and it keeps the file system well formed, whether it succeeds or stops early. |
| `Dependency.BatchSuccessPresent` | src/main/java/dev/necr/velocitycore/dependency/DependencyManager.java:61-65 | If the batch succeeds, every listed key is present in the directory. |
| `Dependency.BatchStopsAtFirstFailure` | src/main/java/dev/necr/velocitycore/dependency/DependencyManager.java:61-65 | A failed batch runs the entries before some index successfully, fails on that entry, and the result is exactly that state. Later entries never run. |
| `Dependency.BatchFailureKeepsEarlier` | src/main/java/dev/necr/velocitycore/dependency/DependencyManager.java:61-65 | A failed batch stops at an index where the earlier entries succeeded and that entry's download failed, and the result is exactly that state. The error names the failing entry or the directory. Every earlier entry stays cached: there is no rollback. |
| `Dependency.BatchSucceeds` | src/main/java/dev/necr/velocitycore/dependency/DependencyManager.java:61-65 | On a well-formed disk whose cache directory exists or can be created, the batch succeeds when every listed url answers. |
| `Dependency.BatchFailsOnUnreachable` | src/main/java/dev/necr/velocitycore/dependency/DependencyManager.java:44-49 | The converse: an entry whose file is absent and whose url does not answer makes the batch fail, unless an earlier entry of the same name already dealt with that file. |
| `Dependency.BatchEntries` | src/main/java/dev/necr/velocitycore/dependency/DependencyManager.java:61-65 | A successful batch adds to the directory exactly one entry per listed key and nothing else. |
| `Dependency.StepAddsNoChildDirectory` | src/main/java/dev/necr/velocitycore/dependency/DependencyManager.java:40-51 | A download creates no subdirectory of `dirPath`: directory creation adds only `dirPath` and its ancestors. |
| `Dependency.BatchFiles` | src/main/java/dev/necr/velocitycore/dependency/DependencyManager.java:61-65 | After a successful batch each key is a regular file in the directory, unless a directory of that name was there before. |
| `Dependency.BatchFillsEmptyDirectory` | src/main/java/dev/necr/velocitycore/dependency/DependencyManager.java:61-65 | Against an empty directory, a successful batch leaves the directory holding exactly one entry per key. Each of them is a regular file, so there are as many files as the map has keys. |
| `Dependency.BatchOfNothing` | src/main/java/dev/necr/velocitycore/dependency/DependencyManager.java:61-65 | An empty map downloads nothing and changes nothing. |
| `Dependency.IsJar` | src/main/java/dev/necr/velocitycore/dependency/DependencyManager.java:81 | The filter tests whether the whole path string ends with ".jar". |
| `Dependency.JarUrls` | src/main/java/dev/necr/velocitycore/dependency/DependencyManager.java:78-86 | The collected urls are exactly the stream's entries whose path string ends with ".jar". |
| `Dependency.JarUrlsAppend` | src/main/java/dev/necr/velocitycore/dependency/DependencyManager.java:80-85 | The filter keeps stream order: it distributes over concatenation of streams. |
| `Dependency.JarSuffixOnName` | src/main/java/dev/necr/velocitycore/dependency/DependencyManager.java:81 | For a directory entry, the test on the whole path string is the test on the entry's name. |
| `Dependency.LoadSelectsJarEntries` | src/main/java/dev/necr/velocitycore/dependency/DependencyManager.java:79-85 | Listing a directory and filtering it yields exactly the directory's entries whose own name ends with ".jar", whatever the stream order. |
| `Dependency.DependencyManager.LoadDir` | src/main/java/dev/necr/velocitycore/dependency/DependencyManager.java:73-89 | If the path is not a directory, the loader is unchanged. Otherwise the new loader's urls are `JarUrls` of the stream that listed the directory, and its parent is the previous loader. The file system is not touched (it is not in the frame). |
| `Dependency.LoadSkipsNonJars` | src/main/java/dev/necr/velocitycore/dependency/DependencyManager.java:79-85 | For a directory holding a.jar, b.jar and readme.txt, the link gets exactly the two jars, in every stream order. |
| `Dependency.LoadKeepsJarNamedDirectory` | src/main/java/dev/necr/velocitycore/dependency/DependencyManager.java:81 | A subdirectory named classes.jar is selected as a url. |
| `VelocityCore.FirstUnreadable` | src/main/java/dev/necr/velocitycore/VelocityCore.java:108-117 | The loop stops at the first element it cannot read: every element before it is a record, and it is unreadable or the end. |
| `VelocityCore.Fold` | src/main/java/dev/necr/velocitycore/VelocityCore.java:108-114 | The `put` loop over a run of records: each record in turn sets its name to its url. |
| `VelocityCore.DependencyMap` | src/main/java/dev/necr/velocitycore/VelocityCore.java:93-117 | The map the pipeline goes on with: the fold of the records before the first unreadable element, or empty when the document is not an array. |
| `VelocityCore.Acquires` | src/main/java/dev/necr/velocitycore/VelocityCore.java:95-106 | The method returns early exactly when the resource is missing or the array is empty. |
| `VelocityCore.FoldKeys` | src/main/java/dev/necr/velocitycore/VelocityCore.java:108-114 | A name is a key of the map exactly when some record carries it. |
| `VelocityCore.FoldLastWins` | src/main/java/dev/necr/velocitycore/VelocityCore.java:110-113 | A name maps to the url of its last occurrence. |
| `VelocityCore.UnreadableKeepsPrefix` | src/main/java/dev/necr/velocitycore/VelocityCore.java:108-117 | If element i cannot be read, the map is exactly the fold of the records before i, whatever follows. |
| `VelocityCore.DependencyMapKeys` | src/main/java/dev/necr/velocitycore/VelocityCore.java:108-114 | The dependency map has no keys other than names in the manifest. |
| `VelocityCore.CollectDependencies` | src/main/java/dev/necr/velocitycore/VelocityCore.java:108-117 | The `put` loop with its catch builds the fold of the records before the first unreadable element. |
| `VelocityCore.LibsDir` | src/main/java/dev/necr/velocitycore/VelocityCore.java:121 | The cache directory's path string is the data directory's + "/libs", and it is a child of the data directory. |
| `VelocityCore.LoadDependencies` | src/main/java/dev/necr/velocitycore/VelocityCore.java:88-131 | A missing manifest or an empty array returns with nothing created, fetched or linked. Otherwise libs is created first; failure there escapes with no other effect. Then the batch runs on the (possibly partial) map. A failed batch skips `loadDir` and still returns normally. A successful one links the jars of libs behind the plugin's loader. |
| `VelocityCore.OnProxyInitialization` | src/main/java/dev/necr/velocitycore/VelocityCore.java:72-83 | An error escaping `loadDependencies` is caught and logged, and initialization carries on. It is logged exactly when libs cannot be created, and then nothing changed. |

## Left out

- JSON syntax and Gson: the manifest is `Missing`, `Unparsable` or an array of elements, each a record or unreadable. Gson's conversions (a number read by `getAsString`, say) are not modelled.
- Network behaviour: a url answers with the same body every time, or always fails; timeouts, HTTP and flaky hosts are not modelled. A malformed url counts as a failed request.
- Class resolution by `URLClassLoader` (lookup, parent-first delegation) and the cast in the constructor: only the chain of links is modelled. `path.toUri().toURL()` is treated as the path itself.
- Path normalisation, `..`, separators inside names and the parsing done by `Paths.get`: `dir.resolve(name)` is an opaque child and `/libs` is a child named `libs`.
- `Files.copy` writing part of a file before failing: the copy is all or nothing.
- File system failures other than a regular file standing in the way (permissions, a full disk, symbolic links), an IOException from `newDirectoryStream`, and exceptions from closing the `dependencies.json` resource stream.
- Dependency.DownloadFailureReported: closing the url's input stream (the try-with-resources at DependencyManager.java line 46) is taken never to fail. If that `close()` threw after `Files.copy` had finished, the source would report "Failed to download" with the file already written. The model's failures never write the file.
- Logging, timing, the startup banner, the plugin metadata, the static `instance` and Guice injection: I/O and framework glue without logic.
- Two processes racing on the cache directory: the code does not guard against it.
- Files.AfterCreateDirectories: a failure is reported as being about the requested path. The JDK's exception names the ancestor that is in the way, so the message logged by `onProxyInitialization` can differ.
- VelocityCore.OnProxyInitialization: its contract states only when an error is logged and that nothing changed then. The state after a normal run is stated by `VelocityCore.LoadDependencies`.
