/**
 * VelocityCore.loadDependencies: reads the bundled manifest into a map
 * from jar name to url, creates `<dataDirectory>/libs`, downloads every
 * entry there and links the directory's jars behind a new class loader;
 * and onProxyInitialization, which runs it and survives its failure.
 */
module VelocityCore {
  import opened Wrappers
  import opened Orders
  import opened Files
  import opened Net
  import opened Dependency

  /**
   * One element of the manifest's JSON array, as the loop reads it: an
   * object with string fields `name` and `url`, or an element on which
   * `getAsJsonObject`, `get` or `getAsString` throws.
   */
  datatype Element = Record(name: string, url: string) | Unreadable

  /** The resource dependencies.json: absent, not readable as a JSON array, or an array. */
  datatype Manifest = Missing | Unparsable | Array(elements: seq<Element>)

  /** The index of the first element the loop cannot read, or the length when there is none. */
  function FirstUnreadable(es: seq<Element>): (i: nat)
    ensures i <= |es|
    ensures forall j :: 0 <= j < i ==> es[j].Record?
    ensures i < |es| ==> es[i].Unreadable?
  {
    if es == [] || es[0].Unreadable? then 0 else 1 + FirstUnreadable(es[1..])
  }

  /** The map the `put` loop builds from a run of records, in order. */
  function Fold(rs: seq<Element>): map<string, string>
    requires forall j :: 0 <= j < |rs| ==> rs[j].Record?
  {
    if rs == [] then map[]
    else Fold(rs[..|rs| - 1])[rs[|rs| - 1].name := rs[|rs| - 1].url]
  }

  /** The dependency map the pipeline goes on with: a parse failure keeps what was put before it. */
  function DependencyMap(m: Manifest): map<string, string> {
    match m
    case Array(es) => Fold(es[..FirstUnreadable(es)])
    case _ => map[]
  }

  /** Whether loadDependencies goes past the manifest: it returns early on a missing resource and on an empty array. */
  predicate Acquires(m: Manifest) {
    !m.Missing? && !(m.Array? && |m.elements| == 0)
  }

  /** `Paths.get(dataDirectory + "/libs")`. */
  function LibsDir(dataDirectory: Path): (p: Path)
    ensures ToString(p) == ToString(dataDirectory) + "/libs"
    ensures p.Child? && p.parent == dataDirectory
  {
    Child(dataDirectory, "libs")
  }

  /** A name is a key exactly when some record carries it. */
  lemma {:induction false} FoldKeys(rs: seq<Element>, k: string)
    requires forall j :: 0 <= j < |rs| ==> rs[j].Record?
    ensures k in Fold(rs) <==> exists j :: 0 <= j < |rs| && rs[j].name == k
  {
    if rs != [] {
      var init := rs[..|rs| - 1];
      FoldKeys(init, k);
      if k in Fold(init) {
        var j :| 0 <= j < |init| && init[j].name == k;
        assert rs[j].name == k;
      }
      if j :| 0 <= j < |rs| - 1 && rs[j].name == k {
        assert init[j].name == k;
      }
    }
  }

  /** Last write wins: a name maps to the url of its last occurrence. */
  lemma {:induction false} FoldLastWins(rs: seq<Element>, i: nat)
    requires forall j :: 0 <= j < |rs| ==> rs[j].Record?
    requires i < |rs|
    requires forall j :: i < j < |rs| ==> rs[j].name != rs[i].name
    ensures rs[i].name in Fold(rs) && Fold(rs)[rs[i].name] == rs[i].url
  {
    if i < |rs| - 1 {
      var init := rs[..|rs| - 1];
      FoldLastWins(init, i);
    }
  }

  /** The first unreadable element is the one every earlier element is a record before. */
  lemma FirstUnreadableAt(es: seq<Element>, i: nat)
    requires i <= |es|
    requires forall j :: 0 <= j < i ==> es[j].Record?
    requires i < |es| ==> es[i].Unreadable?
    ensures FirstUnreadable(es) == i
  {
  }

  /** A parse failure at element `|prefix|` leaves exactly the map of the records before it, whatever follows. */
  lemma UnreadableKeepsPrefix(prefix: seq<Element>, rest: seq<Element>)
    requires forall j :: 0 <= j < |prefix| ==> prefix[j].Record?
    ensures DependencyMap(Array(prefix + [Unreadable] + rest)) == Fold(prefix)
  {
    var es := prefix + [Unreadable] + rest;
    assert es[..|prefix|] == prefix;
    forall j | 0 <= j < |prefix|
      ensures es[j].Record?
    {
      assert es[j] == es[..|prefix|][j];
    }
    FirstUnreadableAt(es, |prefix|);
    assert DependencyMap(Array(es)) == Fold(es[..|prefix|]);
  }

  /** The dependency map has no keys other than names in the manifest. */
  lemma DependencyMapKeys(m: Manifest, k: string)
    ensures k in DependencyMap(m) ==> exists e :: e in m.elements && e.Record? && e.name == k
  {
    if m.Array? && k in DependencyMap(m) {
      var es := m.elements[..FirstUnreadable(m.elements)];
      FoldKeys(es, k);
      var j :| 0 <= j < |es| && es[j].name == k;
      assert es[j] in m.elements;
    }
  }

  /** The `put` loop of `loadDependencies` with the catch after it: stops quietly at the first unreadable element. */
  method CollectDependencies(elements: seq<Element>) returns (deps: map<string, string>)
    ensures deps == Fold(elements[..FirstUnreadable(elements)])
  {
    deps := map[];
    var i := 0;
    while i < |elements|
      invariant i <= |elements|
      invariant forall j :: 0 <= j < i ==> elements[j].Record?
      invariant deps == Fold(elements[..i])
    {
      match elements[i] {
        case Unreadable =>
          break;
        case Record(name, url) =>
          assert elements[..i + 1][..i] == elements[..i];
          deps := deps[name := url];
          i := i + 1;
      }
    }
  }

  /**
   * `loadDependencies()`. `pluginLoader` stands for the plugin's class
   * loader; the ghost `loader` is what the method's local DependencyManager
   * holds when the method ends, `order` the map's iteration order and
   * `stream` the order of the libs directory's entries.
   */
  method LoadDependencies(manifest: Manifest, dataDirectory: Path, fs: FileSystem, net: Network, pluginLoader: ClassLoader)
    returns (r: Outcome<IOError>, ghost loader: ClassLoader, ghost order: seq<Entry>, ghost stream: seq<Path>)
    modifies fs, net
    ensures !Acquires(manifest) ==>
              r == Pass && fs.State() == old(fs.State()) && net.requests == old(net.requests) && loader == pluginLoader
    ensures Acquires(manifest) ==>
              var libs := LibsDir(dataDirectory);
              var created := AfterCreateDirectories(old(fs.State()), libs);
              if created.Err? then
                r == Fail(FileSystemError(libs)) && fs.State() == old(fs.State()) && net.requests == old(net.requests)
                && loader == pluginLoader
              else
                var deps := DependencyMap(manifest);
                && r == Pass
                && Enumerates(order, deps.Items)
                && var s := DownloadBatch(created.value, net.responses, order, libs);
                && fs.State() == s.disk && net.requests == old(net.requests) + s.requests
                && (s.outcome.Fail? ==> loader == pluginLoader)
                && (s.outcome.Pass? ==> Enumerates(stream, Entries(s.disk, libs)) && loader == Chain(JarUrls(stream), pluginLoader))
  {
    loader, order, stream := pluginLoader, [], [];
    var deps: map<string, string> := map[];
    match manifest {
      case Missing =>
        return Pass, loader, order, stream;
      case Unparsable =>
      case Array(elements) =>
        if |elements| == 0 {
          return Pass, loader, order, stream;
        }
        deps := CollectDependencies(elements);
    }
    var manager := new DependencyManager(pluginLoader);
    var libs := LibsDir(dataDirectory);
    r := fs.CreateDirectories(libs);
    if r.Fail? {
      return;
    }
    ghost var created := fs.State();
    var downloaded;
    downloaded, order := manager.DownloadAll(deps, libs, fs, net);
    BatchGrows(created, net.responses, order, libs);
    if downloaded.Pass? {
      stream := manager.LoadDir(libs, fs);
    }
    loader := manager.urlClassLoader;
    r := Pass;
  }

  /**
   * `onProxyInitialization`: an IOException out of loadDependencies is
   * logged and initialization carries on; `logged` is the error it logs.
   */
  method OnProxyInitialization(manifest: Manifest, dataDirectory: Path, fs: FileSystem, net: Network, pluginLoader: ClassLoader)
    returns (logged: Option<IOError>)
    modifies fs, net
    ensures logged.Some? <==> Acquires(manifest) && AfterCreateDirectories(old(fs.State()), LibsDir(dataDirectory)).Err?
    ensures logged.Some? ==>
              logged.value == FileSystemError(LibsDir(dataDirectory))
              && fs.State() == old(fs.State()) && net.requests == old(net.requests)
  {
    var r, _, _, _ := LoadDependencies(manifest, dataDirectory, fs, net, pluginLoader);
    logged := if r.Fail? then Some(r.error) else None;
  }
}
