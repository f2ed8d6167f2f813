/**
 * The registry of running script modules of the hot-swap manager.
 *
 * Two maps describe what is loaded: logical module name to module, and
 * library path to module name. The source listener additionally keeps the set
 * of module names whose sources it tracks. Loading copies the library into a
 * cache directory, opens the copy and resolves three exported functions;
 * the operating-system loader and the copy are passed in as outcomes.
 */
module ScriptRegistry {
  import opened Wrappers
  import opened ScriptNames

  /** A library path: a file name inside the watched library directory. */
  type Path = string

  /** What the operating-system loader finds in a library file. */
  datatype LibraryImage = LibraryImage(
    opens: bool,                  // dlopen / LoadLibrary succeeded
    exportsRevisionHash: bool,    // `GetScriptModuleRevisionHash` resolved
    exportsAddScripts: bool,      // `AddScripts` resolved
    exportsScriptModule: bool,    // `GetScriptModule` resolved
    revisionHash: string,         // what `GetScriptModuleRevisionHash` returns
    moduleName: string)           // what `GetScriptModule` returns

  /** The state of a library file when a load is attempted. */
  datatype LibraryFile = LibraryFile(copySucceeds: bool, image: LibraryImage)

  /** A loaded module: the cache copy it was opened from and what it reports. */
  datatype ScriptModule = ScriptModule(cachePath: Path, revisionHash: string, name: string)

  /** Why `CreateFromPath` throws. */
  datatype CreateError = LibraryNotLoadable | MissingFunctions

  /**
   * The cache copy of a library: `.cache/<filename>` inside the library
   * directory. The same file is overwritten on every load of that library.
   */
  function CachePath(path: Path): Path
  {
    ".cache/" + path
  }

  /** Opening a library succeeds exactly when it opens and all three functions resolve. */
  function CreateFromPath(cachePath: Path, image: LibraryImage): (r: Result<ScriptModule, CreateError>)
    ensures r.Success? <==>
              image.opens && image.exportsRevisionHash && image.exportsAddScripts && image.exportsScriptModule
    ensures r.Failure? ==> (r.error == LibraryNotLoadable <==> !image.opens)
    ensures r.Success? ==> r.value.cachePath == cachePath && r.value.name == image.moduleName
                           && r.value.revisionHash == image.revisionHash
  {
    if !image.opens then Failure(LibraryNotLoadable)
    else if image.exportsRevisionHash && image.exportsAddScripts && image.exportsScriptModule then
      Success(ScriptModule(cachePath, image.revisionHash, image.moduleName))
    else Failure(MissingFunctions)
  }

  // ---------------------------------------------------------------------
  // Revision check

  /** Revision hashes are compared on at most this many characters. */
  const RevisionLength: nat := 7

  /** The three outcomes of the revision check; none of them stops a load. */
  datatype RevisionCheck = EmptyRevision | RevisionMismatch | RevisionMatch

  predicate IsPrefix(a: string, b: string)
  {
    |a| <= |b| && a == b[..|a|]
  }

  /** The module's revision hash cut to its first seven characters. */
  function TrimRevision(hash: string): (r: string)
    ensures |r| <= RevisionLength && IsPrefix(r, hash)
    ensures |hash| >= RevisionLength ==> |r| == RevisionLength
    ensures |hash| < RevisionLength ==> r == hash
  {
    if |hash| >= RevisionLength then hash[..RevisionLength] else hash
  }

  /**
   * Compares a module's revision hash with the host's: empty after the cut
   * only warns, otherwise both are cut to the shorter length and compared.
   */
  function CheckRevision(moduleHash: string, hostHash: string): (r: RevisionCheck)
    ensures r == EmptyRevision <==> moduleHash == ""
    ensures r == RevisionMatch <==>
              moduleHash != "" &&
              (IsPrefix(TrimRevision(moduleHash), hostHash) || IsPrefix(hostHash, TrimRevision(moduleHash)))
  {
    var mine := TrimRevision(moduleHash);
    if mine == "" then EmptyRevision
    else
      var trim := if |mine| <= |hostHash| then |mine| else |hostHash|;
      if hostHash[..trim] == mine[..trim] then RevisionMatch else RevisionMismatch
  }

  // ---------------------------------------------------------------------
  // The registry

  /** `_running_script_modules`, `_running_script_module_names` and the source listener's module set. */
  datatype Registry = Registry(modules: map<string, ScriptModule>, names: map<Path, string>, tracked: set<string>)

  /** The registry with nothing loaded. */
  function EmptyRegistry(): Registry
  {
    Registry(map[], map[], {})
  }

  /**
   * The registry invariant: each path names one running module and no two
   * paths name the same one; the named modules are exactly the running ones,
   * which are exactly the tracked ones; each module is stored under its own
   * name and was opened from its path's cache copy.
   */
  predicate Valid(reg: Registry)
  {
    && (forall p, q :: p in reg.names && q in reg.names && p != q ==> reg.names[p] != reg.names[q])
    && (forall p :: p in reg.names ==> reg.names[p] in reg.modules)
    && (forall n :: n in reg.modules ==> exists p :: p in reg.names && reg.names[p] == n)
    && reg.modules.Keys == reg.tracked
    && (forall n :: n in reg.modules ==> reg.modules[n].name == n)
    && (forall p :: p in reg.names ==> reg.modules[reg.names[p]].cachePath == CachePath(p))
  }

  /** Under the invariant the path-to-name map is a bijection onto the running names. */
  lemma ValidNamesAreRunning(reg: Registry)
    requires Valid(reg)
    ensures reg.names.Values == reg.modules.Keys
    ensures |reg.names| == |reg.modules|
  {
    assert reg.names.Values == reg.modules.Keys;
    BijectionSameSize(reg.names, reg.modules.Keys);
  }

  /** An injective map onto a set has as many keys as the set has elements. */
  lemma {:induction false} BijectionSameSize(m: map<Path, string>, s: set<string>)
    requires forall p, q :: p in m && q in m && p != q ==> m[p] != m[q]
    requires m.Values == s
    ensures |m| == |s|
    decreases |m|
  {
    if m != map[] {
      var p :| p in m;
      var rest := m - {p};
      assert rest.Values == s - {m[p]} by {
        forall n | n in rest.Values ensures n in s - {m[p]} {
          var q :| q in rest && rest[q] == n;
        }
        forall n | n in s - {m[p]} ensures n in rest.Values {
          var q :| q in m && m[q] == n;
          assert q != p;
          assert rest[q] == n;
        }
      }
      BijectionSameSize(rest, s - {m[p]});
    }
  }

  lemma EmptyRegistryValid()
    ensures Valid(EmptyRegistry())
  {
  }

  /** What happened to one load attempt. */
  datatype LoadOutcome =
    | CacheCopyFailed
    | CreateFailed(error: CreateError)
    | AlreadyLoaded(name: string)
    | Loaded(name: string, revision: RevisionCheck)

  datatype LoadReport = LoadReport(registry: Registry, outcome: LoadOutcome)

  /**
   * Loads the library at `path`, which must not be registered yet. A failed
   * copy, a library that cannot be opened or lacks a function, and a module
   * name that is already running each leave the registry unchanged; a revision
   * mismatch or an empty revision never prevents the load.
   */
  function ProcessLoad(reg: Registry, path: Path, file: LibraryFile, hostHash: string): (r: LoadReport)
    requires path !in reg.names
    ensures r.outcome.Loaded? <==>
              && file.copySucceeds
              && CreateFromPath(CachePath(path), file.image).Success?
              && file.image.moduleName !in reg.modules
    ensures !r.outcome.Loaded? ==> r.registry == reg
    ensures r.outcome.Loaded? ==>
              && r.outcome.name == file.image.moduleName
              && r.outcome.revision == CheckRevision(file.image.revisionHash, hostHash)
              && r.registry.modules.Keys == reg.modules.Keys + {r.outcome.name}
              && r.registry.names.Keys == reg.names.Keys + {path}
              && r.registry.tracked == reg.tracked + {r.outcome.name}
              && r.registry.names[path] == r.outcome.name
              && r.registry.modules[r.outcome.name] == ScriptModule(CachePath(path), file.image.revisionHash, r.outcome.name)
              && (forall q :: q in reg.names ==> r.registry.names[q] == reg.names[q])
              && (forall n :: n in reg.modules ==> r.registry.modules[n] == reg.modules[n])
    ensures r.outcome.AlreadyLoaded? ==> r.outcome.name in reg.modules
    ensures Valid(reg) ==> Valid(r.registry)
  {
    if !file.copySucceeds then LoadReport(reg, CacheCopyFailed)
    else match CreateFromPath(CachePath(path), file.image)
      case Failure(e) => LoadReport(reg, CreateFailed(e))
      case Success(sm) =>
        var revision := CheckRevision(sm.revisionHash, hostHash);
        if sm.name in reg.modules then LoadReport(reg, AlreadyLoaded(sm.name))
        else
          var reg' := Registry(reg.modules[sm.name := sm], reg.names[path := sm.name], reg.tracked + {sm.name});
          LoadValid(reg, path, sm);
          LoadReport(reg', Loaded(sm.name, revision))
  }

  /** Adding a fresh path and a fresh module name keeps the invariant. */
  lemma LoadValid(reg: Registry, path: Path, sm: ScriptModule)
    requires path !in reg.names && sm.name !in reg.modules
    requires sm.cachePath == CachePath(path)
    ensures Valid(reg) ==>
              Valid(Registry(reg.modules[sm.name := sm], reg.names[path := sm.name], reg.tracked + {sm.name}))
  {
    if Valid(reg) {
      var reg' := Registry(reg.modules[sm.name := sm], reg.names[path := sm.name], reg.tracked + {sm.name});
      forall n | n in reg'.modules ensures exists p :: p in reg'.names && reg'.names[p] == n {
        if n == sm.name {
          assert reg'.names[path] == n;
        } else {
          var p :| p in reg.names && reg.names[p] == n;
          assert reg'.names[p] == n;
        }
      }
    }
  }

  /**
   * Unloads the module registered under `path`. An unregistered path is a
   * no-op; otherwise its name leaves both maps and the tracked set and
   * nothing else changes. Dropping the map entry closes the library.
   */
  function ProcessUnload(reg: Registry, path: Path): (r: Registry)
    ensures path !in reg.names ==> r == reg
    ensures path in reg.names ==>
              && r.names.Keys == reg.names.Keys - {path}
              && r.modules.Keys == reg.modules.Keys - {reg.names[path]}
              && r.tracked == reg.tracked - {reg.names[path]}
              && (forall q :: q in r.names ==> r.names[q] == reg.names[q])
              && (forall n :: n in r.modules ==> r.modules[n] == reg.modules[n])
    ensures path !in r.names
    ensures Valid(reg) ==> Valid(r)
  {
    if path !in reg.names then reg
    else
      var name := reg.names[path];
      var r := Registry(reg.modules - {name}, reg.names - {path}, reg.tracked - {name});
      UnloadValid(reg, path);
      r
  }

  lemma UnloadValid(reg: Registry, path: Path)
    requires path in reg.names
    ensures Valid(reg) ==>
              Valid(Registry(reg.modules - {reg.names[path]}, reg.names - {path}, reg.tracked - {reg.names[path]}))
  {
    if Valid(reg) {
      var name := reg.names[path];
      var r := Registry(reg.modules - {name}, reg.names - {path}, reg.tracked - {name});
      forall n | n in r.modules ensures exists p :: p in r.names && r.names[p] == n {
        var p :| p in reg.names && reg.names[p] == n;
        assert p != path;
        assert r.names[p] == n;
      }
    }
  }

  /**
   * Reload is an unload followed by a load of the same path. A successful
   * reload registers the path under the new module's name; a failed one
   * leaves the path unregistered, so the previous version is gone.
   */
  function ProcessReload(reg: Registry, path: Path, file: LibraryFile, hostHash: string): (r: LoadReport)
    ensures r.outcome.Loaded? ==> path in r.registry.names && r.registry.names[path] == r.outcome.name
    ensures !r.outcome.Loaded? ==> path !in r.registry.names && r.registry == ProcessUnload(reg, path)
    ensures r.outcome.Loaded? <==>
              && file.copySucceeds
              && CreateFromPath(CachePath(path), file.image).Success?
              && file.image.moduleName !in ProcessUnload(reg, path).modules
    ensures Valid(reg) ==> Valid(r.registry)
  {
    ProcessLoad(ProcessUnload(reg, path), path, file, hostHash)
  }

  /** Unloading a freshly loaded path gives back the registry it was loaded into. */
  lemma UnloadUndoesLoad(reg: Registry, path: Path, file: LibraryFile, hostHash: string)
    requires Valid(reg)
    requires path !in reg.names
    ensures ProcessUnload(ProcessLoad(reg, path, file, hostHash).registry, path) == reg
  {
    var r := ProcessLoad(reg, path, file, hostHash);
    if r.outcome.Loaded? {
      var name := r.outcome.name;
      var loaded := r.registry;
      assert loaded.names[path] == name;
      assert name !in reg.tracked;
      var u := Registry(loaded.modules - {name}, loaded.names - {path}, loaded.tracked - {name});
      assert u.names == reg.names;
      assert u.modules == reg.modules;
      assert u.tracked == reg.tracked;
    }
  }

  /** With a valid registry a module name can be loaded again once its path was unloaded. */
  lemma ReloadSameNameSucceeds(reg: Registry, path: Path, file: LibraryFile, hostHash: string)
    requires Valid(reg)
    requires path in reg.names
    requires file.copySucceeds && CreateFromPath(CachePath(path), file.image).Success?
    requires file.image.moduleName == reg.names[path]
    ensures ProcessReload(reg, path, file, hostHash).outcome == Loaded(reg.names[path], CheckRevision(file.image.revisionHash, hostHash))
  {
    var u := ProcessUnload(reg, path);
    assert reg.names[path] !in u.modules;
  }

  // ---------------------------------------------------------------------
  // Start-up scan

  /** One entry of the library directory listing. */
  datatype DirEntry = DirEntry(name: Path, isRegularFile: bool)

  /** The library at `path` can be copied to the cache and opened with all three functions. */
  predicate Loadable(file: LibraryFile, path: Path)
  {
    file.copySucceeds && CreateFromPath(CachePath(path), file.image).Success?
  }

  /** Directory entries the start-up scan loads: regular files with a script-library name. */
  predicate Qualifies(p: Platform, e: DirEntry)
  {
    e.isRegularFile && IsScriptModule(p, e.name)
  }

  /** Number of entries that qualify. */
  function QualifyingCount(p: Platform, entries: seq<DirEntry>): nat
  {
    if entries == [] then 0
    else QualifyingCount(p, entries[..|entries| - 1]) + (if Qualifies(p, entries[|entries| - 1]) then 1 else 0)
  }

  /** No two directory entries share a name. */
  predicate DistinctNames(entries: seq<DirEntry>)
  {
    forall i, j :: 0 <= i < j < |entries| ==> entries[i].name != entries[j].name
  }

  datatype ScanReport = ScanReport(registry: Registry, count: nat)

  /**
   * Loads every qualifying directory entry in listing order. The reported
   * count is the number of load attempts, successful or not.
   */
  function InitializeDefaultLibraries(reg: Registry, p: Platform, entries: seq<DirEntry>, files: Path -> LibraryFile, hostHash: string): (r: ScanReport)
    requires DistinctNames(entries)
    requires forall i :: 0 <= i < |entries| ==> entries[i].name !in reg.names
    ensures r.count == QualifyingCount(p, entries)
    ensures forall q :: q in r.registry.names ==>
              q in reg.names || exists e :: e in entries && e.name == q && Qualifies(p, e)
    ensures forall q :: q in reg.names ==> q in r.registry.names && r.registry.names[q] == reg.names[q]
    ensures reg.modules.Keys <= r.registry.modules.Keys
    ensures forall q :: q in r.registry.names && q !in reg.names ==> r.registry.names[q] == files(q).image.moduleName
    ensures forall e :: e in entries && Qualifies(p, e) && Loadable(files(e.name), e.name) ==>
              e.name in r.registry.names || files(e.name).image.moduleName in r.registry.modules
    ensures Valid(reg) ==> Valid(r.registry)
  {
    if entries == [] then ScanReport(reg, 0)
    else
      var init := entries[..|entries| - 1];
      var e := entries[|entries| - 1];
      assert entries == init + [e];
      var before := InitializeDefaultLibraries(reg, p, init, files, hostHash);
      assert e.name !in before.registry.names by {
        assert forall i :: 0 <= i < |init| ==> init[i].name != e.name;
      }
      ScanReport(ScanEntry(before.registry, p, e, files, hostHash), before.count + (if Qualifies(p, e) then 1 else 0))
  }

  /** One step of the start-up scan: a qualifying entry is loaded, any other skipped. */
  function ScanEntry(reg: Registry, p: Platform, e: DirEntry, files: Path -> LibraryFile, hostHash: string): (r: Registry)
    requires e.name !in reg.names
    ensures forall q :: q in reg.names ==> q in r.names && r.names[q] == reg.names[q]
    ensures reg.modules.Keys <= r.modules.Keys
    ensures r.names.Keys <= reg.names.Keys + (if Qualifies(p, e) then {e.name} else {})
    ensures e.name in r.names ==> r.names[e.name] == files(e.name).image.moduleName
    ensures Qualifies(p, e) && Loadable(files(e.name), e.name) ==>
              e.name in r.names || files(e.name).image.moduleName in r.modules
    ensures Valid(reg) ==> Valid(r)
  {
    if !Qualifies(p, e) then reg
    else ProcessLoad(reg, e.name, files(e.name), hostHash).registry
  }

  /**
   * When the qualifying libraries report pairwise distinct module names that
   * are not running yet, the start-up scan registers every one of them that
   * can be copied and opened.
   */
  lemma ScanLoadsEveryDistinctModule(reg: Registry, p: Platform, entries: seq<DirEntry>, files: Path -> LibraryFile, hostHash: string)
    requires Valid(reg)
    requires DistinctNames(entries)
    requires forall i :: 0 <= i < |entries| ==> entries[i].name !in reg.names
    requires forall i :: 0 <= i < |entries| && Qualifies(p, entries[i]) ==>
               files(entries[i].name).image.moduleName !in reg.modules
    requires forall i, j :: 0 <= i < j < |entries| && Qualifies(p, entries[i]) && Qualifies(p, entries[j]) ==>
               files(entries[i].name).image.moduleName != files(entries[j].name).image.moduleName
    ensures var r := InitializeDefaultLibraries(reg, p, entries, files, hostHash);
            forall i :: 0 <= i < |entries| && Qualifies(p, entries[i]) && Loadable(files(entries[i].name), entries[i].name) ==>
              entries[i].name in r.registry.names
  {
    var r := InitializeDefaultLibraries(reg, p, entries, files, hostHash).registry;
    forall i | 0 <= i < |entries| && Qualifies(p, entries[i]) && Loadable(files(entries[i].name), entries[i].name)
      ensures entries[i].name in r.names
    {
      var e := entries[i];
      var mn := files(e.name).image.moduleName;
      if mn in r.modules {
        var q :| q in r.names && r.names[q] == mn;
        assert q !in reg.names;
        var f :| f in entries && f.name == q && Qualifies(p, f);
        var j :| 0 <= j < |entries| && entries[j] == f;
        assert j == i;
      }
    }
  }
}
