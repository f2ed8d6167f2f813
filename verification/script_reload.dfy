/**
 * The hot-swap script reload manager: the state it keeps between update
 * ticks and the tick itself.
 *
 * Watcher callbacks queue library changes (a path-to-state map, the latest
 * state winning) and compile requests (a set of module names). Each tick
 * first looks after the single build-job slot and possibly starts one
 * compile, then dispatches all queued library changes at once to the
 * registry. The clock is an explicit millisecond argument; the result of a
 * running build job, the set's iteration order and the library files are
 * passed in.
 */
module ScriptReload {
  import opened Wrappers
  import opened ScriptNames
  import opened ScriptEvents
  import opened ScriptRegistry

  /** Bursts of changes closer together than this many milliseconds are held back. */
  const DebounceMs: nat := 1000

  /** The build configuration every compile job uses. */
  const BuildConfiguration: string := "Release"

  datatype BuildJobType = CompileJob | InstallJob

  /** The one asynchronous build or install job the manager may hold. */
  datatype BuildJob = BuildJob(kind: BuildJobType, name: string, project: string, config: string)

  /** What the manager remembers between ticks. */
  datatype Manager = Manager(
    registry: Registry,
    librariesChanged: map<Path, LibraryChangedState>,
    lastLibraryChange: nat,
    modulesChanged: set<string>,
    lastModuleChange: nat,
    buildJob: Option<BuildJob>)

  /** The manager before start-up; a time stamp of 0 means "no change pending". */
  function InitialManager(): (m: Manager)
    ensures Valid(m.registry) && m.buildJob.None?
    ensures m.registry.names == map[] && m.registry.modules == map[] && m.registry.tracked == {}
    ensures m.librariesChanged == map[] && m.modulesChanged == {}
    ensures m.lastLibraryChange == 0 && m.lastModuleChange == 0
  {
    Manager(EmptyRegistry(), map[], 0, {}, 0, None)
  }

  /** The clock has not gone backwards since the last recorded change. */
  predicate ClockAfter(m: Manager, now: nat)
  {
    now >= m.lastLibraryChange && now >= m.lastModuleChange
  }

  // ---------------------------------------------------------------------
  // Queueing

  /**
   * Records a library change: at most one pending state per path, the most
   * recent one replacing any earlier one; the library time stamp becomes `now`.
   */
  function UpdateModuleEntry(m: Manager, path: Path, state: LibraryChangedState, now: nat): (r: Manager)
    ensures r.librariesChanged.Keys == m.librariesChanged.Keys + {path}
    ensures r.librariesChanged[path] == state
    ensures forall q :: q in m.librariesChanged && q != path ==> r.librariesChanged[q] == m.librariesChanged[q]
    ensures r.lastLibraryChange == now
    ensures r == m.(librariesChanged := r.librariesChanged, lastLibraryChange := now)
  {
    m.(librariesChanged := m.librariesChanged[path := state], lastLibraryChange := now)
  }

  /** The state of the last request for `path` in `reqs`, if any. */
  function LastStateFor(reqs: seq<Request>, path: Path): Option<LibraryChangedState>
  {
    if reqs == [] then None
    else if reqs[|reqs| - 1].path == path then Some(reqs[|reqs| - 1].state)
    else LastStateFor(reqs[..|reqs| - 1], path)
  }

  /**
   * Queues the requests one listener call produced, in order. The pending
   * state of each path is that of the last request for it, or its earlier
   * pending state when no request names it.
   */
  function QueueRequests(m: Manager, reqs: seq<Request>, now: nat): (r: Manager)
    ensures forall q :: q in r.librariesChanged <==> q in m.librariesChanged || LastStateFor(reqs, q).Some?
    ensures forall q :: q in r.librariesChanged ==>
              r.librariesChanged[q] == (if LastStateFor(reqs, q).Some? then LastStateFor(reqs, q).value else m.librariesChanged[q])
    ensures r.lastLibraryChange == (if reqs == [] then m.lastLibraryChange else now)
    ensures r == m.(librariesChanged := r.librariesChanged, lastLibraryChange := r.lastLibraryChange)
  {
    if reqs == [] then m
    else UpdateModuleEntry(QueueRequests(m, reqs[..|reqs| - 1], now), reqs[|reqs| - 1].path, reqs[|reqs| - 1].state, now)
  }

  /**
   * A library-directory event, classified by the corrected listener and
   * queued: an unload for the old name of a library renamed away, the
   * state of the action for a library name, and an unload of the old name
   * followed by a load of the new one for a rename between library names.
   */
  function OnLibraryEvent(m: Manager, p: Platform, filename: string, action: Action, oldFilename: string, now: nat): (r: Manager)
    ensures forall q :: q in r.librariesChanged ==> q in m.librariesChanged || q == filename || q == oldFilename
    ensures r.registry == m.registry && r.modulesChanged == m.modulesChanged && r.buildJob == m.buildJob
    ensures !IsScriptModule(p, filename) && !(action == Moved && IsScriptModule(p, oldFilename)) ==> r == m
    ensures !IsScriptModule(p, filename) && action == Moved && IsScriptModule(p, oldFilename) ==>
              r.librariesChanged == m.librariesChanged[oldFilename := Unload] && r.lastLibraryChange == now
    ensures IsScriptModule(p, filename) && action != Moved ==>
              r.librariesChanged == m.librariesChanged[filename := StateForAction(action)] && r.lastLibraryChange == now
    ensures IsScriptModule(p, filename) && action == Moved && oldFilename != "" && !IsScriptModule(p, oldFilename) ==>
              r.librariesChanged == m.librariesChanged[filename := Load] && r.lastLibraryChange == now
    ensures IsScriptModule(p, filename) && action == Moved && (oldFilename == "" || IsScriptModule(p, oldFilename)) ==>
              r.librariesChanged == m.librariesChanged[oldFilename := Unload][filename := Load] && r.lastLibraryChange == now
  {
    var reqs := ClassifyLibraryEvent(p, filename, action, oldFilename);
    var r := QueueRequests(m, reqs, now);
    forall q | q in r.librariesChanged && q !in m.librariesChanged
      ensures q == filename || q == oldFilename
    {
      LastStateForNamesARequest(reqs, q);
    }
    QueueShort(m, reqs, now);
    r
  }

  /**
   * The library listener as written: a library renamed away queues an
   * unload under its NEW name, which is not a library; every other event
   * is queued as by the corrected listener.
   */
  function OnLibraryEventAsWritten(m: Manager, p: Platform, filename: string, action: Action, oldFilename: string, now: nat): (r: Manager)
    ensures !IsScriptModule(p, filename) && action == Moved && IsScriptModule(p, oldFilename) ==>
              r.librariesChanged == m.librariesChanged[filename := Unload] && r.lastLibraryChange == now
    ensures !(!IsScriptModule(p, filename) && action == Moved && IsScriptModule(p, oldFilename)) ==>
              r == OnLibraryEvent(m, p, filename, action, oldFilename, now)
  {
    var reqs := ClassifyLibraryEventAsWritten(p, filename, action, oldFilename);
    QueueShort(m, reqs, now);
    QueueRequests(m, reqs, now)
  }

  /** Queueing one or two requests is as many entry updates, in order. */
  lemma QueueShort(m: Manager, reqs: seq<Request>, now: nat)
    ensures |reqs| == 1 ==> QueueRequests(m, reqs, now) == UpdateModuleEntry(m, reqs[0].path, reqs[0].state, now)
    ensures |reqs| == 2 ==>
              QueueRequests(m, reqs, now)
                == UpdateModuleEntry(UpdateModuleEntry(m, reqs[0].path, reqs[0].state, now), reqs[1].path, reqs[1].state, now)
  {
    if |reqs| == 1 {
      assert reqs[..0] == [];
    } else if |reqs| == 2 {
      assert reqs[..1][..0] == [];
      assert reqs[..1] == [reqs[0]];
    }
  }

  /** A path has a last state only if some request names it. */
  lemma {:induction false} LastStateForNamesARequest(reqs: seq<Request>, path: Path)
    requires LastStateFor(reqs, path).Some?
    ensures exists i :: 0 <= i < |reqs| && reqs[i] == Request(path, LastStateFor(reqs, path).value)
  {
    if reqs[|reqs| - 1].path == path {
      assert reqs[|reqs| - 1] == Request(path, LastStateFor(reqs, path).value);
    } else {
      LastStateForNamesARequest(reqs[..|reqs| - 1], path);
      var i :| 0 <= i < |reqs| - 1 && reqs[..|reqs| - 1][i] == Request(path, LastStateFor(reqs, path).value);
      assert reqs[i] == reqs[..|reqs| - 1][i];
    }
  }

  /** Queues a compile request; repeated requests for one module collapse. */
  function CompileScriptModule(m: Manager, name: string, now: nat): (r: Manager)
    ensures r.modulesChanged == m.modulesChanged + {name}
    ensures r.lastModuleChange == now
    ensures r == m.(modulesChanged := r.modulesChanged, lastModuleChange := now)
  {
    m.(modulesChanged := m.modulesChanged + {name}, lastModuleChange := now)
  }

  /**
   * A source-tree event: queues a compile of the top-level module directory
   * exactly when the file is a regular C/C++ file and that directory is a
   * tracked module; whatever the action was.
   */
  function OnSourceEvent(m: Manager, filename: string, facts: SourceFacts, now: nat): (r: Manager)
    ensures r.modulesChanged != m.modulesChanged ==> r.modulesChanged == m.modulesChanged + {FirstComponent(filename)}
    ensures r != m ==>
              && facts.isRegularFile && facts.rootIsDirectory
              && IsSourceExtension(Extension(filename))
              && FirstComponent(filename) in m.registry.tracked
    ensures facts.isRegularFile && facts.rootIsDirectory && IsSourceExtension(Extension(filename))
            && FirstComponent(filename) in m.registry.tracked ==>
              FirstComponent(filename) in r.modulesChanged && r.lastModuleChange == now
    ensures r.registry == m.registry && r.librariesChanged == m.librariesChanged && r.buildJob == m.buildJob
  {
    match SourceChangeModule(filename, facts, m.registry.tracked)
    case None => m
    case Some(name) => CompileScriptModule(m, name, now)
  }

  // ---------------------------------------------------------------------
  // Dispatching library changes

  /** `order` lists every key of the set exactly once (the map's iteration order). */
  predicate Enumerates(order: seq<Path>, keys: set<Path>)
  {
    && (forall i, j :: 0 <= i < j < |order| ==> order[i] != order[j])
    && (forall i :: 0 <= i < |order| ==> order[i] in keys)
    && (forall q :: q in keys ==> q in order)
  }

  /** The pending changes in iteration order. */
  function PendingRequests(order: seq<Path>, changes: map<Path, LibraryChangedState>): (r: seq<Request>)
    requires forall i :: 0 <= i < |order| ==> order[i] in changes
    ensures |r| == |order|
    ensures forall i :: 0 <= i < |r| ==> r[i] == Request(order[i], changes[order[i]])
  {
    if order == [] then []
    else PendingRequests(order[..|order| - 1], changes) + [Request(order[|order| - 1], changes[order[|order| - 1]])]
  }

  /** The registry while dispatching: the process aborts when a load finds its path registered. */
  datatype RegistryRun = Continued(registry: Registry) | Halted(path: Path)

  /**
   * Every path outside `touched` is registered afterwards exactly when it was
   * before, under the same module name.
   */
  ghost predicate KeepsOtherPaths(before: Registry, after: Registry, touched: set<Path>)
  {
    forall x :: x !in touched ==>
      && (x in after.names <==> x in before.names)
      && (x in before.names ==> after.names[x] == before.names[x])
  }

  /** The paths a batch of requests names. */
  function RequestPaths(reqs: seq<Request>): set<Path>
  {
    set i | 0 <= i < |reqs| :: reqs[i].path
  }

  /** One dispatched change. */
  function ApplyRequest(reg: Registry, q: Request, files: Path -> LibraryFile, hostHash: string): (r: RegistryRun)
    ensures r.Halted? <==> q.state == Load && q.path in reg.names
    ensures r.Continued? && Valid(reg) ==> Valid(r.registry)
    ensures r.Continued? && q.state == Load ==> r.registry == ProcessLoad(reg, q.path, files(q.path), hostHash).registry
    ensures r.Continued? && q.state == Reload ==> r.registry == ProcessReload(reg, q.path, files(q.path), hostHash).registry
    ensures r.Continued? && q.state == Unload ==> r.registry == ProcessUnload(reg, q.path)
    ensures r.Continued? ==> KeepsOtherPaths(reg, r.registry, {q.path})
  {
    match q.state
    case Load =>
      if q.path in reg.names then Halted(q.path)
      else Continued(ProcessLoad(reg, q.path, files(q.path), hostHash).registry)
    case Reload => Continued(ProcessReload(reg, q.path, files(q.path), hostHash).registry)
    case Unload => Continued(ProcessUnload(reg, q.path))
  }

  /** The dispatched changes, in order, stopping at an abort. */
  function ApplyRequests(reg: Registry, reqs: seq<Request>, files: Path -> LibraryFile, hostHash: string): (r: RegistryRun)
    ensures r.Continued? && Valid(reg) ==> Valid(r.registry)
    ensures r.Halted? ==> exists i :: 0 <= i < |reqs| && reqs[i] == Request(r.path, Load)
    ensures r.Continued? ==> KeepsOtherPaths(reg, r.registry, RequestPaths(reqs))
  {
    if reqs == [] then Continued(reg)
    else
      var init := reqs[..|reqs| - 1];
      assert RequestPaths(reqs) == RequestPaths(init) + {reqs[|reqs| - 1].path} by {
        assert forall i :: 0 <= i < |init| ==> init[i] == reqs[i];
      }
      match ApplyRequests(reg, init, files, hostHash)
      case Halted(p) => Halted(p)
      case Continued(before) => ApplyRequest(before, reqs[|reqs| - 1], files, hostHash)
  }

  /**
   * When a batch names each path once and runs to the end, every path it
   * asked to unload is unregistered afterwards.
   */
  lemma {:induction false} AppliedUnloadsStayUnloaded(reg: Registry, reqs: seq<Request>, files: Path -> LibraryFile, hostHash: string)
    requires forall i, j :: 0 <= i < j < |reqs| ==> reqs[i].path != reqs[j].path
    ensures var r := ApplyRequests(reg, reqs, files, hostHash);
            r.Continued? ==> forall i :: 0 <= i < |reqs| && reqs[i].state == Unload ==> reqs[i].path !in r.registry.names
  {
    if reqs != [] {
      var init := reqs[..|reqs| - 1];
      var last := reqs[|reqs| - 1];
      AppliedUnloadsStayUnloaded(reg, init, files, hostHash);
      match ApplyRequests(reg, init, files, hostHash)
      case Halted(_) =>
      case Continued(before) =>
        var r := ApplyRequest(before, last, files, hostHash);
        if r.Continued? {
          forall i | 0 <= i < |reqs| && reqs[i].state == Unload ensures reqs[i].path !in r.registry.names {
            if i < |reqs| - 1 {
              assert init[i] == reqs[i];
              assert reqs[i].path !in {last.path};
            }
          }
        }
    }
  }

  /**
   * Requests are applied one after the other: a batch split anywhere runs
   * as its first part followed, unless that aborted, by its second part.
   */
  lemma {:induction false} ApplyRequestsInOrder(reg: Registry, a: seq<Request>, b: seq<Request>, files: Path -> LibraryFile, hostHash: string)
    ensures ApplyRequests(reg, a + b, files, hostHash) ==
              match ApplyRequests(reg, a, files, hostHash)
              case Halted(p) => Halted(p)
              case Continued(mid) => ApplyRequests(mid, b, files, hostHash)
    decreases |b|
  {
    if b == [] {
      assert a + b == a;
    } else {
      var init := b[..|b| - 1];
      assert (a + b)[..|a + b| - 1] == a + init;
      assert (a + b)[|a + b| - 1] == b[|b| - 1];
      ApplyRequestsInOrder(reg, a, init, files, hostHash);
    }
  }

  /** The module name the library file behind a request reports. */
  function ModuleOf(files: Path -> LibraryFile, q: Request): string
  {
    files(q.path).image.moduleName
  }

  /** No two loads or reloads of a batch report the same module name. */
  predicate LoadsReportDistinctModules(reqs: seq<Request>, files: Path -> LibraryFile)
  {
    forall i, j :: 0 <= i < j < |reqs| && reqs[i].state != Unload && reqs[j].state != Unload ==>
      ModuleOf(files, reqs[i]) != ModuleOf(files, reqs[j])
  }

  /**
   * The module name a load or reload reports is free before the batch: not
   * running, or running from the very path a reload unloads first.
   */
  predicate ModuleFreeBefore(reg: Registry, q: Request, files: Path -> LibraryFile)
  {
    ModuleOf(files, q) !in reg.modules
    || (q.state == Reload && q.path in reg.names && reg.names[q.path] == ModuleOf(files, q))
  }

  /** Every module running after a batch was running before it or was reported by one of its loads. */
  lemma {:induction false} ModulesComeFromBatch(reg: Registry, reqs: seq<Request>, files: Path -> LibraryFile, hostHash: string)
    ensures var r := ApplyRequests(reg, reqs, files, hostHash);
            r.Continued? ==> forall n :: n in r.registry.modules ==>
              n in reg.modules || exists j :: 0 <= j < |reqs| && reqs[j].state != Unload && ModuleOf(files, reqs[j]) == n
  {
    if reqs != [] {
      var init := reqs[..|reqs| - 1];
      var last := reqs[|reqs| - 1];
      ModulesComeFromBatch(reg, init, files, hostHash);
      match ApplyRequests(reg, init, files, hostHash)
      case Halted(_) =>
      case Continued(before) =>
        var r := ApplyRequest(before, last, files, hostHash);
        if r.Continued? {
          forall n | n in r.registry.modules
            ensures n in reg.modules || exists j :: 0 <= j < |reqs| && reqs[j].state != Unload && ModuleOf(files, reqs[j]) == n
          {
            if n in before.modules {
              if n !in reg.modules {
                var j :| 0 <= j < |init| && init[j].state != Unload && ModuleOf(files, init[j]) == n;
                assert reqs[j] == init[j];
              }
            } else {
              assert last.state != Unload && ModuleOf(files, last) == n;
            }
          }
        }
    }
  }

  /**
   * When a batch names each path once, its loads report distinct module
   * names and it runs to the end, every load or reload whose library can be
   * copied and opened and whose module name was free before the batch is
   * registered afterwards.
   */
  lemma {:induction false} AppliedLoadsAreRegistered(reg: Registry, reqs: seq<Request>, files: Path -> LibraryFile, hostHash: string)
    requires forall i, j :: 0 <= i < j < |reqs| ==> reqs[i].path != reqs[j].path
    requires LoadsReportDistinctModules(reqs, files)
    ensures var r := ApplyRequests(reg, reqs, files, hostHash);
            r.Continued? ==> forall i :: 0 <= i < |reqs| && reqs[i].state != Unload
                                         && Loadable(files(reqs[i].path), reqs[i].path)
                                         && ModuleFreeBefore(reg, reqs[i], files) ==>
                                           reqs[i].path in r.registry.names
  {
    if reqs != [] {
      var init := reqs[..|reqs| - 1];
      var last := reqs[|reqs| - 1];
      AppliedLoadsAreRegistered(reg, init, files, hostHash);
      match ApplyRequests(reg, init, files, hostHash)
      case Halted(_) =>
      case Continued(before) =>
        var r := ApplyRequest(before, last, files, hostHash);
        if r.Continued? {
          forall i | 0 <= i < |reqs| && reqs[i].state != Unload && Loadable(files(reqs[i].path), reqs[i].path)
                     && ModuleFreeBefore(reg, reqs[i], files)
            ensures reqs[i].path in r.registry.names
          {
            if i < |reqs| - 1 {
              assert init[i] == reqs[i];
              assert reqs[i].path !in {last.path};
            } else {
              LastLoadIsRegistered(reg, init, last, before, files, hostHash);
            }
          }
        }
    }
  }

  /** The step of `AppliedLoadsAreRegistered` for the last request of the batch. */
  lemma LastLoadIsRegistered(reg: Registry, init: seq<Request>, last: Request, before: Registry, files: Path -> LibraryFile, hostHash: string)
    requires forall i :: 0 <= i < |init| ==> init[i].path != last.path
    requires forall i :: 0 <= i < |init| && init[i].state != Unload && last.state != Unload ==> ModuleOf(files, init[i]) != ModuleOf(files, last)
    requires ApplyRequests(reg, init, files, hostHash) == Continued(before)
    requires last.state != Unload && Loadable(files(last.path), last.path) && ModuleFreeBefore(reg, last, files)
    requires ApplyRequest(before, last, files, hostHash).Continued?
    ensures last.path in ApplyRequest(before, last, files, hostHash).registry.names
  {
    var mn := ModuleOf(files, last);
    ModulesComeFromBatch(reg, init, files, hostHash);
    assert mn in before.modules ==> mn in reg.modules;
    assert last.path !in RequestPaths(init);
    assert last.path in before.names <==> last.path in reg.names;
    assert last.path in reg.names ==> before.names[last.path] == reg.names[last.path];
    if last.state == Load {
      LoadStepRegisters(before, last.path, files(last.path), hostHash);
    } else {
      ReloadStepRegisters(before, last.path, files(last.path), hostHash);
    }
  }

  /** A load of a loadable library whose module name is not running registers its path. */
  lemma LoadStepRegisters(before: Registry, path: Path, file: LibraryFile, hostHash: string)
    requires path !in before.names
    requires Loadable(file, path) && file.image.moduleName !in before.modules
    ensures path in ProcessLoad(before, path, file, hostHash).registry.names
  {
  }

  /**
   * A reload of a loadable library registers its path when its module name
   * is not running, or is running from that same path.
   */
  lemma ReloadStepRegisters(before: Registry, path: Path, file: LibraryFile, hostHash: string)
    requires Loadable(file, path)
    requires file.image.moduleName !in before.modules || (path in before.names && before.names[path] == file.image.moduleName)
    ensures path in ProcessReload(before, path, file, hostHash).registry.names
  {
    var u := ProcessUnload(before, path);
    assert file.image.moduleName !in u.modules;
  }

  /**
   * The order of a batch matters. Take a path `b` running a module and a
   * library `a` reporting the same module name. Loading `a` before unloading
   * `b` refuses the load and then drops the module, so afterwards neither
   * path is registered and the module is not running. The other order
   * loads `a`.
   */
  lemma LoadBeforeUnloadLosesModule(reg: Registry, a: Path, b: Path, files: Path -> LibraryFile, hostHash: string)
    requires Valid(reg)
    requires a != b && a !in reg.names && b in reg.names
    requires Loadable(files(a), a) && ModuleOf(files, Request(a, Load)) == reg.names[b]
    ensures var r := ApplyRequests(reg, [Request(a, Load), Request(b, Unload)], files, hostHash);
            && r.Continued?
            && a !in r.registry.names && b !in r.registry.names && reg.names[b] !in r.registry.modules
    ensures var r := ApplyRequests(reg, [Request(b, Unload), Request(a, Load)], files, hostHash);
            r.Continued? && a in r.registry.names
  {
    var loadA, unloadB := Request(a, Load), Request(b, Unload);
    var freed := ProcessUnload(reg, b);
    assert ApplyRequest(reg, loadA, files, hostHash) == Continued(reg);
    assert ApplyRequest(reg, unloadB, files, hostHash) == Continued(freed);
    ApplyTwo(reg, loadA, unloadB, files, hostHash);
    ApplyTwo(reg, unloadB, loadA, files, hostHash);
    LoadStepRegisters(freed, a, files(a), hostHash);
  }

  /** A batch of two requests is the first followed by the second. */
  lemma ApplyTwo(reg: Registry, q1: Request, q2: Request, files: Path -> LibraryFile, hostHash: string)
    ensures ApplyRequests(reg, [q1, q2], files, hostHash) ==
              match ApplyRequest(reg, q1, files, hostHash)
              case Halted(p) => Halted(p)
              case Continued(mid) => ApplyRequest(mid, q2, files, hostHash)
  {
    var s := [q1, q2];
    var first := s[..1];
    assert first == [q1];
    assert first[..0] == [];
    assert ApplyRequests(reg, first, files, hostHash) == ApplyRequest(reg, q1, files, hostHash);
    assert s[|s| - 1] == q2;
  }

  /** The outcome of a tick, or of a part of one. */
  datatype Outcome = Running(state: Manager) | Aborted(path: Path)

  datatype DispatchResult = DispatchResult(outcome: Outcome, dispatched: seq<Request>)

  /**
   * The hold-back test of the library dispatch as written: it looks at
   * whether a COMPILE request is pending but at how long ago the last LIBRARY
   * change happened.
   */
  predicate LibraryDispatchHeld(m: Manager, now: nat)
    requires now >= m.lastLibraryChange
  {
    m.lastModuleChange != 0 && now - m.lastLibraryChange < DebounceMs
  }

  /**
   * Dispatches every pending library change at once: the pending map is
   * swapped out, so afterwards it is empty and each entry was dispatched
   * exactly once with its pending state.
   */
  function DispatchScriptModuleChanges(m: Manager, now: nat, order: seq<Path>, files: Path -> LibraryFile, hostHash: string): (r: DispatchResult)
    requires now >= m.lastLibraryChange
    requires m.librariesChanged != map[] ==> Enumerates(order, m.librariesChanged.Keys)
    ensures LibraryDispatchHeld(m, now) || m.librariesChanged == map[] ==> r == DispatchResult(Running(m), [])
    ensures !LibraryDispatchHeld(m, now) && m.librariesChanged != map[] ==>
              && |r.dispatched| == |m.librariesChanged|
              && Enumerates(order, m.librariesChanged.Keys)
              && |order| == |r.dispatched|
              && (forall i :: 0 <= i < |r.dispatched| ==>
                    r.dispatched[i] == Request(order[i], m.librariesChanged[order[i]]))
              && (r.outcome.Running? ==>
                    r.outcome.state == m.(registry := r.outcome.state.registry, librariesChanged := map[], lastLibraryChange := 0))
    ensures !LibraryDispatchHeld(m, now) && m.librariesChanged != map[] ==>
              match ApplyRequests(m.registry, r.dispatched, files, hostHash)
              case Halted(p) => r.outcome == Aborted(p)
              case Continued(reg) => r.outcome.Running? && r.outcome.state.registry == reg
    ensures r.outcome.Running? && Valid(m.registry) ==> Valid(r.outcome.state.registry)
    ensures r.outcome.Aborted? ==> exists i :: 0 <= i < |r.dispatched| && r.dispatched[i] == Request(r.outcome.path, Load)
  {
    if LibraryDispatchHeld(m, now) || m.librariesChanged == map[] then DispatchResult(Running(m), [])
    else
      var reqs := PendingRequests(order, m.librariesChanged);
      EnumerationSize(order, m.librariesChanged.Keys);
      match ApplyRequests(m.registry, reqs, files, hostHash)
      case Halted(p) => DispatchResult(Aborted(p), reqs)
      case Continued(reg) => DispatchResult(Running(m.(registry := reg, librariesChanged := map[], lastLibraryChange := 0)), reqs)
  }

  /**
   * A dispatch that lets the process run on unregisters every path that was
   * pending an unload, and leaves the registration of every path that was
   * not pending exactly as it was.
   */
  lemma DispatchRegistryEffect(m: Manager, now: nat, order: seq<Path>, files: Path -> LibraryFile, hostHash: string)
    requires now >= m.lastLibraryChange
    requires m.librariesChanged != map[] ==> Enumerates(order, m.librariesChanged.Keys)
    ensures var r := DispatchScriptModuleChanges(m, now, order, files, hostHash);
            r.outcome.Running? ==>
              && KeepsOtherPaths(m.registry, r.outcome.state.registry, m.librariesChanged.Keys)
              && (!LibraryDispatchHeld(m, now) ==>
                    forall q :: q in m.librariesChanged && m.librariesChanged[q] == Unload ==> q !in r.outcome.state.registry.names)
  {
    var r := DispatchScriptModuleChanges(m, now, order, files, hostHash);
    if !LibraryDispatchHeld(m, now) && m.librariesChanged != map[] && r.outcome.Running? {
      var reqs := PendingRequests(order, m.librariesChanged);
      PendingRequestsNameEachKeyOnce(order, m.librariesChanged);
      AppliedUnloadsStayUnloaded(m.registry, reqs, files, hostHash);
      forall q | q in m.librariesChanged && m.librariesChanged[q] == Unload
        ensures q !in r.outcome.state.registry.names
      {
        var i :| 0 <= i < |reqs| && reqs[i].path == q;
        assert reqs[i].state == Unload;
      }
    }
  }

  /** No two pending loads or reloads report the same module name. */
  predicate PendingLoadsReportDistinctModules(changes: map<Path, LibraryChangedState>, files: Path -> LibraryFile)
  {
    forall q1, q2 :: q1 in changes && q2 in changes && q1 != q2 && changes[q1] != Unload && changes[q2] != Unload ==>
      files(q1).image.moduleName != files(q2).image.moduleName
  }

  /**
   * A dispatch that lets the process run registers every path pending a
   * load or reload whose library can be copied and opened, provided the
   * pending loads report distinct module names and this one's name was free
   * before the dispatch.
   */
  lemma DispatchLoadEffect(m: Manager, now: nat, order: seq<Path>, files: Path -> LibraryFile, hostHash: string)
    requires now >= m.lastLibraryChange
    requires m.librariesChanged != map[] ==> Enumerates(order, m.librariesChanged.Keys)
    requires PendingLoadsReportDistinctModules(m.librariesChanged, files)
    ensures var r := DispatchScriptModuleChanges(m, now, order, files, hostHash);
            r.outcome.Running? && !LibraryDispatchHeld(m, now) ==>
              forall q :: q in m.librariesChanged && m.librariesChanged[q] != Unload && Loadable(files(q), q)
                          && ModuleFreeBefore(m.registry, Request(q, m.librariesChanged[q]), files) ==>
                            q in r.outcome.state.registry.names
  {
    var r := DispatchScriptModuleChanges(m, now, order, files, hostHash);
    if !LibraryDispatchHeld(m, now) && m.librariesChanged != map[] && r.outcome.Running? {
      var reqs := PendingRequests(order, m.librariesChanged);
      assert r.dispatched == reqs;
      var applied := ApplyRequests(m.registry, reqs, files, hostHash);
      assert applied.Continued? && r.outcome.state.registry == applied.registry;
      PendingLoadsAreRegistered(m.registry, order, m.librariesChanged, files, hostHash);
    }
  }

  /** `AppliedLoadsAreRegistered` for the pending changes listed in an enumeration order. */
  lemma PendingLoadsAreRegistered(reg: Registry, order: seq<Path>, changes: map<Path, LibraryChangedState>, files: Path -> LibraryFile, hostHash: string)
    requires Enumerates(order, changes.Keys)
    requires PendingLoadsReportDistinctModules(changes, files)
    ensures var r := ApplyRequests(reg, PendingRequests(order, changes), files, hostHash);
            r.Continued? ==>
              forall q :: q in changes && changes[q] != Unload && Loadable(files(q), q)
                          && ModuleFreeBefore(reg, Request(q, changes[q]), files) ==>
                            q in r.registry.names
  {
    var reqs := PendingRequests(order, changes);
    PendingRequestsNameEachKeyOnce(order, changes);
    PendingLoadsStayDistinct(order, changes, files);
    AppliedLoadsAreRegistered(reg, reqs, files, hostHash);
    var r := ApplyRequests(reg, reqs, files, hostHash);
    if r.Continued? {
      forall q | q in changes && changes[q] != Unload && Loadable(files(q), q)
                 && ModuleFreeBefore(reg, Request(q, changes[q]), files)
        ensures q in r.registry.names
      {
        var i :| 0 <= i < |reqs| && reqs[i].path == q;
        assert reqs[i] == Request(q, changes[q]);
      }
    }
  }

  /** Distinct module names among the pending loads carry over to the listed requests. */
  lemma PendingLoadsStayDistinct(order: seq<Path>, changes: map<Path, LibraryChangedState>, files: Path -> LibraryFile)
    requires Enumerates(order, changes.Keys)
    requires PendingLoadsReportDistinctModules(changes, files)
    ensures LoadsReportDistinctModules(PendingRequests(order, changes), files)
  {
    var reqs := PendingRequests(order, changes);
    forall i, j | 0 <= i < j < |reqs| && reqs[i].state != Unload && reqs[j].state != Unload
      ensures ModuleOf(files, reqs[i]) != ModuleOf(files, reqs[j])
    {
      assert reqs[i].path == order[i] && reqs[j].path == order[j];
    }
  }

  /** Pending requests listed in an enumeration order name each pending path exactly once. */
  lemma PendingRequestsNameEachKeyOnce(order: seq<Path>, changes: map<Path, LibraryChangedState>)
    requires Enumerates(order, changes.Keys)
    ensures var reqs := PendingRequests(order, changes);
            && RequestPaths(reqs) == changes.Keys
            && (forall i, j :: 0 <= i < j < |reqs| ==> reqs[i].path != reqs[j].path)
            && (forall q :: q in changes ==> exists i :: 0 <= i < |reqs| && reqs[i].path == q)
  {
    var reqs := PendingRequests(order, changes);
    forall q | q in changes ensures exists i :: 0 <= i < |reqs| && reqs[i].path == q {
      var i :| 0 <= i < |order| && order[i] == q;
      assert reqs[i].path == q;
    }
  }

  /** A duplicate-free listing of a set is as long as the set is large. */
  lemma {:induction false} EnumerationSize(order: seq<Path>, keys: set<Path>)
    requires Enumerates(order, keys)
    ensures |order| == |keys|
    decreases |order|
  {
    if order != [] {
      var last := order[|order| - 1];
      var init := order[..|order| - 1];
      assert Enumerates(init, keys - {last}) by {
        forall q ensures q in keys - {last} <==> q in init {
          if q in init {
            var i :| 0 <= i < |init| && init[i] == q;
            assert order[i] == q && i < |order| - 1;
          }
          if q in keys - {last} {
            var i :| 0 <= i < |order| && order[i] == q;
            assert i != |order| - 1;
            assert init[i] == q;
          }
        }
      }
      EnumerationSize(init, keys - {last});
    }
  }

  // ---------------------------------------------------------------------
  // The build-job slot

  /** Lower-cases one ASCII letter; other characters are unchanged. */
  function ToLower(c: char): (r: char)
    ensures !('A' <= r <= 'Z')
    ensures ('a' <= c <= 'z' || !('A' <= c <= 'Z')) ==> r == c
  {
    if 'A' <= c <= 'Z' then (c as int - 'A' as int + 'a' as int) as char else c
  }

  function LowerCase(s: string): (r: string)
    ensures |r| == |s|
    ensures forall i :: 0 <= i < |s| ==> r[i] == ToLower(s[i])
  {
    if s == [] then [] else [ToLower(s[0])] + LowerCase(s[1..])
  }

  /** The build target of a module: `scripts_` followed by its name, all in lower case. */
  function ProjectName(module_: string): (r: string)
    ensures |r| == 8 + |module_|
    ensures r[..8] == "scripts_"
    ensures forall i :: 0 <= i < |module_| ==> r[8 + i] == ToLower(module_[i])
    ensures forall i :: 0 <= i < |r| ==> !('A' <= r[i] <= 'Z')
  {
    var r := LowerCase("scripts_" + module_);
    assert forall i :: 0 <= i < |module_| ==> ("scripts_" + module_)[8 + i] == module_[i];
    r
  }

  /** Two modules whose names differ only in letter case share a build target. */
  lemma ProjectNameIgnoresCase(a: string, b: string)
    requires |a| == |b|
    requires forall i :: 0 <= i < |a| ==> ToLower(a[i]) == ToLower(b[i])
    ensures ProjectName(a) == ProjectName(b)
  {
    var pa := ProjectName(a);
    var pb := ProjectName(b);
    assert forall i :: 0 <= i < |pa| ==> pa[i] == pb[i] by {
      forall i | 0 <= i < |pa| ensures pa[i] == pb[i] {
        if i < 8 {
          assert pa[i] == pa[..8][i] && pb[i] == pb[..8][i];
        } else {
          assert pa[8 + (i - 8)] == ToLower(a[i - 8]);
        }
      }
    }
  }

  /** The state of the running build job's result at the moment the tick looks. */
  datatype JobPoll = JobPoll(ready: bool, success: bool)

  /**
   * What one tick did besides its outcome: the library changes it dispatched,
   * the install it ran (the install job is created and then destroyed in the
   * same call, and destroying an asynchronous job waits for it) and the
   * compile it started.
   */
  datatype TickResult = TickResult(outcome: Outcome, dispatched: seq<Request>, installRan: Option<string>, started: Option<BuildJob>)

  /** A compile request younger than the hold-back time delays starting a compile. */
  predicate CompileHeld(m: Manager, now: nat)
    requires now >= m.lastModuleChange
  {
    m.lastModuleChange != 0 && now - m.lastModuleChange < DebounceMs
  }

  /**
   * The build-job part of a tick. A job that is not ready ends the tick part
   * at once. A ready result always empties the slot, a successful compile
   * running its install on the way. Then, unless a compile request is younger
   * than the hold-back time, one pending module is taken (`pick`, the set's
   * first element), its compile job started, and the library changes
   * dispatched.
   */
  function DispatchCompileScriptModules(m: Manager, now: nat, poll: JobPoll, pick: string, order: seq<Path>, files: Path -> LibraryFile, hostHash: string): (r: TickResult)
    requires ClockAfter(m, now)
    requires m.modulesChanged != {} ==> pick in m.modulesChanged
    requires m.librariesChanged != map[] ==> Enumerates(order, m.librariesChanged.Keys)
    ensures m.buildJob.Some? && !poll.ready ==> r == TickResult(Running(m), [], None, None)
    ensures r.installRan.Some? <==> m.buildJob.Some? && poll.ready && poll.success && m.buildJob.value.kind == CompileJob
    ensures r.installRan.Some? ==> r.installRan.value == m.buildJob.value.project
    ensures r.started.Some? <==>
              && (m.buildJob.None? || poll.ready)
              && m.modulesChanged != {}
              && !CompileHeld(m, now)
    ensures r.started.Some? && m.librariesChanged != map[] ==> r.dispatched != []
    ensures r.started.Some? ==>
              && (m.buildJob.None? || poll.ready)
              && pick in m.modulesChanged
              && r.started.value == BuildJob(CompileJob, pick, ProjectName(pick), BuildConfiguration)
              && (r.outcome.Running? ==>
                    && r.outcome.state.modulesChanged == m.modulesChanged - {pick}
                    && r.outcome.state.lastModuleChange == 0
                    && r.outcome.state.buildJob == r.started)
    ensures r.started.None? && r.outcome.Running? ==>
              && r.outcome.state.modulesChanged == m.modulesChanged
              && r.outcome.state.lastModuleChange == m.lastModuleChange
              && r.outcome.state.buildJob == (if m.buildJob.Some? && !poll.ready then m.buildJob else None)
              && r.outcome.state.librariesChanged == m.librariesChanged
              && r.outcome.state.lastLibraryChange == m.lastLibraryChange
              && r.outcome.state.registry == m.registry
              && r.dispatched == []
    ensures r.outcome.Running? ==>
              || (r.outcome.state.librariesChanged == m.librariesChanged && r.outcome.state.lastLibraryChange == m.lastLibraryChange)
              || (r.outcome.state.librariesChanged == map[] && r.outcome.state.lastLibraryChange == 0)
    ensures r.dispatched != [] ==> r.outcome.Aborted? || r.outcome.state.librariesChanged == map[]
    ensures r.dispatched == [] && r.outcome.Running? ==>
              r.outcome.state.librariesChanged == m.librariesChanged && r.outcome.state.lastLibraryChange == m.lastLibraryChange
    ensures r.dispatched != [] ==>
              && |r.dispatched| == |m.librariesChanged|
              && Enumerates(order, m.librariesChanged.Keys)
              && |order| == |r.dispatched|
              && (forall i :: 0 <= i < |r.dispatched| ==> r.dispatched[i] == Request(order[i], m.librariesChanged[order[i]]))
    ensures r.outcome.Running? && Valid(m.registry) ==> Valid(r.outcome.state.registry)
  {
    if m.buildJob.Some? && !poll.ready then TickResult(Running(m), [], None, None)
    else
      var installRan :=
        if m.buildJob.Some? && poll.success && m.buildJob.value.kind == CompileJob then Some(m.buildJob.value.project)
        else None;
      var m1 := m.(buildJob := None);
      if CompileHeld(m1, now) || m1.modulesChanged == {} then
        TickResult(Running(m1), [], installRan, None)
      else
        var job := BuildJob(CompileJob, pick, ProjectName(pick), BuildConfiguration);
        var m2 := m1.(modulesChanged := m1.modulesChanged - {pick}, lastModuleChange := 0, buildJob := Some(job));
        var d := DispatchScriptModuleChanges(m2, now, order, files, hostHash);
        TickResult(d.outcome, d.dispatched, installRan, Some(job))
  }

  /**
   * One update tick: the build-job part, then the library dispatch. Within a
   * tick the pending library changes are dispatched at most once.
   */
  function Update(m: Manager, now: nat, poll: JobPoll, pick: string, order: seq<Path>, files: Path -> LibraryFile, hostHash: string): (r: TickResult)
    requires ClockAfter(m, now)
    requires m.modulesChanged != {} ==> pick in m.modulesChanged
    requires m.librariesChanged != map[] ==> Enumerates(order, m.librariesChanged.Keys)
    ensures (m.buildJob.None? || poll.ready) && r.started.None? && r.outcome.Running? ==> r.outcome.state.buildJob.None?
    ensures r.started.Some? ==>
              && pick in m.modulesChanged
              && r.started.value.project == ProjectName(pick)
              && r.started.value.config == BuildConfiguration
              && (r.outcome.Running? ==>
                    && r.outcome.state.modulesChanged == m.modulesChanged - {pick}
                    && |r.outcome.state.modulesChanged| == |m.modulesChanged| - 1
                    && r.outcome.state.buildJob == r.started)
    ensures r.outcome.Running? ==> ClockAfter(r.outcome.state, now)
    ensures r.outcome.Running? && Valid(m.registry) ==> Valid(r.outcome.state.registry)
  {
    var c := DispatchCompileScriptModules(m, now, poll, pick, order, files, hostHash);
    if c.outcome.Aborted? then c
    else
      var m1 := c.outcome.state;
      assert m1.librariesChanged != map[] ==> m1.librariesChanged == m.librariesChanged;
      var d := DispatchScriptModuleChanges(m1, now, order, files, hostHash);
      assert c.dispatched != [] ==> d.dispatched == [];
      assert d.outcome.Running? ==> d.outcome.state.modulesChanged == m1.modulesChanged && d.outcome.state.buildJob == m1.buildJob;
      assert c.started.Some? ==> |m.modulesChanged - {pick}| == |m.modulesChanged| - 1;
      TickResult(d.outcome, c.dispatched + d.dispatched, c.installRan, c.started)
  }

  /**
   * The registry after the build-job part of a tick, or its abort, is that
   * of applying the library changes it dispatched; when it dispatched
   * nothing the registry is unchanged.
   */
  lemma DispatchCompileRegistryEffect(m: Manager, now: nat, poll: JobPoll, pick: string, order: seq<Path>, files: Path -> LibraryFile, hostHash: string)
    requires ClockAfter(m, now)
    requires m.modulesChanged != {} ==> pick in m.modulesChanged
    requires m.librariesChanged != map[] ==> Enumerates(order, m.librariesChanged.Keys)
    ensures var r := DispatchCompileScriptModules(m, now, poll, pick, order, files, hostHash);
            r.dispatched == [] ==> r.outcome.Running? && r.outcome.state.registry == m.registry
    ensures var r := DispatchCompileScriptModules(m, now, poll, pick, order, files, hostHash);
            r.dispatched != [] ==>
              match ApplyRequests(m.registry, r.dispatched, files, hostHash)
              case Halted(p) => r.outcome == Aborted(p)
              case Continued(reg) => r.outcome.Running? && r.outcome.state.registry == reg
  {
    var r := DispatchCompileScriptModules(m, now, poll, pick, order, files, hostHash);
    if (m.buildJob.None? || poll.ready) && m.modulesChanged != {} && !CompileHeld(m, now) {
      var job := BuildJob(CompileJob, pick, ProjectName(pick), BuildConfiguration);
      var m2 := m.(buildJob := None).(modulesChanged := m.modulesChanged - {pick}, lastModuleChange := 0, buildJob := Some(job));
      var d := DispatchScriptModuleChanges(m2, now, order, files, hostHash);
      assert r.outcome == d.outcome && r.dispatched == d.dispatched;
      assert !LibraryDispatchHeld(m2, now);
    }
  }

  /**
   * The registry after a tick, or its abort, is that of applying the library
   * changes the tick dispatched; a tick that dispatched nothing leaves the
   * registry as it was.
   */
  lemma UpdateRegistryEffect(m: Manager, now: nat, poll: JobPoll, pick: string, order: seq<Path>, files: Path -> LibraryFile, hostHash: string)
    requires ClockAfter(m, now)
    requires m.modulesChanged != {} ==> pick in m.modulesChanged
    requires m.librariesChanged != map[] ==> Enumerates(order, m.librariesChanged.Keys)
    ensures var r := Update(m, now, poll, pick, order, files, hostHash);
            r.dispatched == [] ==> r.outcome.Running? && r.outcome.state.registry == m.registry
    ensures var r := Update(m, now, poll, pick, order, files, hostHash);
            r.dispatched != [] ==>
              match ApplyRequests(m.registry, r.dispatched, files, hostHash)
              case Halted(p) => r.outcome == Aborted(p)
              case Continued(reg) => r.outcome.Running? && r.outcome.state.registry == reg
  {
    var c := DispatchCompileScriptModules(m, now, poll, pick, order, files, hostHash);
    DispatchCompileRegistryEffect(m, now, poll, pick, order, files, hostHash);
    if c.outcome.Running? {
      var m1 := c.outcome.state;
      var d := DispatchScriptModuleChanges(m1, now, order, files, hostHash);
      assert Update(m, now, poll, pick, order, files, hostHash) == TickResult(d.outcome, c.dispatched + d.dispatched, c.installRan, c.started);
      assert c.dispatched != [] ==> m1.librariesChanged == map[];
      assert d.dispatched == [] ==> LibraryDispatchHeld(m1, now) || m1.librariesChanged == map[];
      ComposeDispatchEffects(m.registry, c, d, files, hostHash);
    }
  }

  /**
   * Chaining the two dispatch points of a tick: when the first dispatched
   * nothing the second starts from the original registry, and when the first
   * dispatched the second has nothing left to do.
   */
  lemma ComposeDispatchEffects(reg: Registry, c: TickResult, d: DispatchResult, files: Path -> LibraryFile, hostHash: string)
    requires c.outcome.Running?
    requires c.dispatched == [] ==> c.outcome.state.registry == reg
    requires c.dispatched != [] ==>
               match ApplyRequests(reg, c.dispatched, files, hostHash)
               case Halted(p) => c.outcome == Aborted(p)
               case Continued(x) => c.outcome.Running? && c.outcome.state.registry == x
    requires c.dispatched != [] ==> d == DispatchResult(Running(c.outcome.state), [])
    requires d.dispatched == [] ==> d.outcome == Running(c.outcome.state)
    requires d.dispatched != [] ==>
               match ApplyRequests(c.outcome.state.registry, d.dispatched, files, hostHash)
               case Halted(p) => d.outcome == Aborted(p)
               case Continued(x) => d.outcome.Running? && d.outcome.state.registry == x
    ensures var r := TickResult(d.outcome, c.dispatched + d.dispatched, c.installRan, c.started);
            && (r.dispatched == [] ==> r.outcome.Running? && r.outcome.state.registry == reg)
            && (r.dispatched != [] ==>
                  match ApplyRequests(reg, r.dispatched, files, hostHash)
                  case Halted(p) => r.outcome == Aborted(p)
                  case Continued(x) => r.outcome.Running? && r.outcome.state.registry == x)
  {
    if c.dispatched != [] {
      assert c.dispatched + d.dispatched == c.dispatched;
    } else {
      assert c.dispatched + d.dispatched == d.dispatched;
    }
  }

  /**
   * A tick starts a compile exactly when the job slot is free or its result
   * ready, a compile request is pending and none is younger than the
   * hold-back time.
   */
  lemma UpdateStartsCompileWhenDue(m: Manager, now: nat, poll: JobPoll, pick: string, order: seq<Path>, files: Path -> LibraryFile, hostHash: string)
    requires ClockAfter(m, now)
    requires m.modulesChanged != {} ==> pick in m.modulesChanged
    requires m.librariesChanged != map[] ==> Enumerates(order, m.librariesChanged.Keys)
    ensures var r := Update(m, now, poll, pick, order, files, hostHash);
            r.started.Some? <==> (m.buildJob.None? || poll.ready) && m.modulesChanged != {} && !CompileHeld(m, now)
    ensures var r := Update(m, now, poll, pick, order, files, hostHash);
            r.started.Some? ==> r.started.value == BuildJob(CompileJob, pick, ProjectName(pick), BuildConfiguration)
  {
    var c := DispatchCompileScriptModules(m, now, poll, pick, order, files, hostHash);
    assert Update(m, now, poll, pick, order, files, hostHash).started == c.started;
  }

  /**
   * Within one tick the pending library changes are dispatched at most once:
   * each entry exactly once with its pending state, after which the pending
   * map is empty; when nothing was dispatched the pending map is unchanged.
   */
  lemma UpdateDispatchesAtMostOnce(m: Manager, now: nat, poll: JobPoll, pick: string, order: seq<Path>, files: Path -> LibraryFile, hostHash: string)
    requires ClockAfter(m, now)
    requires m.modulesChanged != {} ==> pick in m.modulesChanged
    requires m.librariesChanged != map[] ==> Enumerates(order, m.librariesChanged.Keys)
    ensures var r := Update(m, now, poll, pick, order, files, hostHash);
            r.dispatched != [] ==>
              && |r.dispatched| == |m.librariesChanged|
              && Enumerates(order, m.librariesChanged.Keys)
              && |order| == |r.dispatched|
              && (forall i :: 0 <= i < |r.dispatched| ==> r.dispatched[i] == Request(order[i], m.librariesChanged[order[i]]))
              && (r.outcome.Running? ==> r.outcome.state.librariesChanged == map[])
    ensures var r := Update(m, now, poll, pick, order, files, hostHash);
            r.dispatched == [] && r.outcome.Running? ==> r.outcome.state.librariesChanged == m.librariesChanged
  {
    var c := DispatchCompileScriptModules(m, now, poll, pick, order, files, hostHash);
    if c.outcome.Running? {
      var m1 := c.outcome.state;
      var d := DispatchScriptModuleChanges(m1, now, order, files, hostHash);
      assert Update(m, now, poll, pick, order, files, hostHash) == TickResult(d.outcome, c.dispatched + d.dispatched, c.installRan, c.started);
      assert c.dispatched != [] ==> m1.librariesChanged == map[];
      assert d.dispatched == [] ==> LibraryDispatchHeld(m1, now) || m1.librariesChanged == map[];
      ComposeDispatchLists(m.librariesChanged, order, c, d);
    }
  }

  /** `dispatched` lists every entry of `changes` once, in `order`, with its state. */
  predicate DispatchesAllPending(dispatched: seq<Request>, changes: map<Path, LibraryChangedState>, order: seq<Path>)
  {
    && |dispatched| == |changes|
    && Enumerates(order, changes.Keys)
    && |order| == |dispatched|
    && (forall i :: 0 <= i < |dispatched| ==> dispatched[i] == Request(order[i], changes[order[i]]))
  }

  /**
   * Chaining the request lists of the two dispatch points of a tick: at most
   * one of them dispatches, and whichever does lists every pending entry.
   */
  lemma ComposeDispatchLists(changes: map<Path, LibraryChangedState>, order: seq<Path>, c: TickResult, d: DispatchResult)
    requires c.outcome.Running?
    requires c.dispatched != [] ==> DispatchesAllPending(c.dispatched, changes, order) && c.outcome.state.librariesChanged == map[]
    requires c.dispatched == [] ==> c.outcome.state.librariesChanged == changes
    requires c.dispatched != [] ==> d == DispatchResult(Running(c.outcome.state), [])
    requires d.dispatched == [] ==> d.outcome == Running(c.outcome.state)
    requires d.dispatched != [] ==>
               && DispatchesAllPending(d.dispatched, c.outcome.state.librariesChanged, order)
               && (d.outcome.Running? ==> d.outcome.state.librariesChanged == map[])
    ensures var r := TickResult(d.outcome, c.dispatched + d.dispatched, c.installRan, c.started);
            && (r.dispatched != [] ==> DispatchesAllPending(r.dispatched, changes, order)
                                       && (r.outcome.Running? ==> r.outcome.state.librariesChanged == map[]))
            && (r.dispatched == [] && r.outcome.Running? ==> r.outcome.state.librariesChanged == changes)
  {
    if c.dispatched != [] {
      assert c.dispatched + d.dispatched == c.dispatched;
    } else {
      assert c.dispatched + d.dispatched == d.dispatched;
    }
  }

  /**
   * While the build job is not ready the tick starts nothing, runs no
   * install, and leaves the job and the pending compile requests alone.
   */
  lemma UpdateWaitsForRunningJob(m: Manager, now: nat, poll: JobPoll, pick: string, order: seq<Path>, files: Path -> LibraryFile, hostHash: string)
    requires ClockAfter(m, now)
    requires m.modulesChanged != {} ==> pick in m.modulesChanged
    requires m.librariesChanged != map[] ==> Enumerates(order, m.librariesChanged.Keys)
    requires m.buildJob.Some? && !poll.ready
    ensures var r := Update(m, now, poll, pick, order, files, hostHash);
            && r.started.None? && r.installRan.None?
            && (r.outcome.Running? ==>
                  r.outcome.state.buildJob == m.buildJob && r.outcome.state.modulesChanged == m.modulesChanged)
  {
  }

  /** A successful compile result runs the install and still leaves the slot empty unless a new compile starts. */
  lemma InstallJobIsDiscarded(m: Manager, now: nat, pick: string, order: seq<Path>, files: Path -> LibraryFile, hostHash: string)
    requires ClockAfter(m, now)
    requires m.modulesChanged != {} ==> pick in m.modulesChanged
    requires m.librariesChanged != map[] ==> Enumerates(order, m.librariesChanged.Keys)
    requires m.buildJob.Some? && m.buildJob.value.kind == CompileJob
    ensures var r := Update(m, now, JobPoll(true, true), pick, order, files, hostHash);
            && r.installRan == Some(m.buildJob.value.project)
            && (r.outcome.Running? ==>
                  r.outcome.state.buildJob.None? || r.outcome.state.buildJob.value.kind == CompileJob)
  {
  }

  // ---------------------------------------------------------------------
  // Scenarios

  /** Queueing one request is one map entry update. */
  lemma QueueOne(m: Manager, q: Request, now: nat)
    ensures QueueRequests(m, [q], now) == UpdateModuleEntry(m, q.path, q.state, now)
  {
    assert [q][..0] == [];
  }

  /**
   * A running library that is deleted and re-created within one hold-back
   * window leaves a LOAD pending for a registered path, and dispatching it
   * aborts the process (the assertion that the path is not yet loaded).
   */
  lemma DeleteThenAddAborts(m: Manager, path: Path, now: nat, files: Path -> LibraryFile, hostHash: string)
    requires path in m.registry.names
    requires m.librariesChanged == map[]
    ensures var q := QueueRequests(m, [Request(path, Unload), Request(path, Load)], now);
            && q.librariesChanged == map[path := Load]
            && DispatchScriptModuleChanges(q, now + DebounceMs, [path], files, hostHash).outcome == Aborted(path)
  {
    var reqs := [Request(path, Unload), Request(path, Load)];
    assert reqs[..1] == [Request(path, Unload)];
    QueueOne(m, Request(path, Unload), now);
    var q1 := UpdateModuleEntry(m, path, Unload, now);
    var q := QueueRequests(m, reqs, now);
    assert q == UpdateModuleEntry(q1, path, Load, now);
    assert q.librariesChanged == map[path := Load];
    DispatchLone(q, path, Load, now + DebounceMs, files, hostHash);
  }

  /**
   * Renaming a running library to a name that is not a script library: with
   * the listener as written the module stays loaded after the dispatch
   * although its file is gone; with the corrected listener it is unloaded.
   */
  lemma RenameAwayScenario(m: Manager, p: Platform, filename: string, oldFilename: string, now: nat, files: Path -> LibraryFile, hostHash: string)
    requires oldFilename in m.registry.names
    requires IsScriptModule(p, oldFilename) && !IsScriptModule(p, filename)
    requires m.librariesChanged == map[]
    ensures OnLibraryEventAsWritten(m, p, filename, Moved, oldFilename, now).librariesChanged
              == map[filename := Unload]
    ensures var q := OnLibraryEventAsWritten(m, p, filename, Moved, oldFilename, now);
            var d := DispatchScriptModuleChanges(q, now + DebounceMs, [filename], files, hostHash);
            d.outcome.Running? && oldFilename in d.outcome.state.registry.names
    ensures OnLibraryEvent(m, p, filename, Moved, oldFilename, now).librariesChanged == map[oldFilename := Unload]
    ensures var q := OnLibraryEvent(m, p, filename, Moved, oldFilename, now);
            var d := DispatchScriptModuleChanges(q, now + DebounceMs, [oldFilename], files, hostHash);
            d.outcome.Running? && oldFilename !in d.outcome.state.registry.names
  {
    RenameAwayUnloadsWrongName(p, filename, oldFilename);
    assert filename != oldFilename;
    UnloadKeepsOthers(m, filename, oldFilename, now, files, hostHash);
    UnloadRemoves(m, oldFilename, now, files, hostHash);
  }

  /** Dispatching a lone unload of one path leaves every other registered path in place. */
  lemma UnloadKeepsOthers(m: Manager, path: Path, other: Path, now: nat, files: Path -> LibraryFile, hostHash: string)
    requires other in m.registry.names && other != path
    requires m.librariesChanged == map[]
    ensures var q := QueueRequests(m, [Request(path, Unload)], now);
            var d := DispatchScriptModuleChanges(q, now + DebounceMs, [path], files, hostHash);
            d.outcome.Running? && other in d.outcome.state.registry.names
  {
    QueueOne(m, Request(path, Unload), now);
    var q := QueueRequests(m, [Request(path, Unload)], now);
    assert q.librariesChanged == map[path := Unload];
    DispatchLone(q, path, Unload, now + DebounceMs, files, hostHash);
  }

  /** Dispatching a lone unload of a registered path unregisters it. */
  lemma UnloadRemoves(m: Manager, path: Path, now: nat, files: Path -> LibraryFile, hostHash: string)
    requires m.librariesChanged == map[]
    ensures var q := QueueRequests(m, [Request(path, Unload)], now);
            var d := DispatchScriptModuleChanges(q, now + DebounceMs, [path], files, hostHash);
            d.outcome.Running? && path !in d.outcome.state.registry.names
  {
    QueueOne(m, Request(path, Unload), now);
    var q := QueueRequests(m, [Request(path, Unload)], now);
    assert q.librariesChanged == map[path := Unload];
    DispatchLone(q, path, Unload, now + DebounceMs, files, hostHash);
  }

  /**
   * Dispatching a lone pending request once the hold-back has passed
   * applies exactly that request to the registry.
   */
  lemma DispatchLone(q: Manager, path: Path, state: LibraryChangedState, now: nat, files: Path -> LibraryFile, hostHash: string)
    requires q.librariesChanged == map[path := state]
    requires now >= q.lastLibraryChange + DebounceMs
    ensures var d := DispatchScriptModuleChanges(q, now, [path], files, hostHash);
            match ApplyRequest(q.registry, Request(path, state), files, hostHash)
            case Halted(p) => d.outcome == Aborted(p)
            case Continued(reg) => d.outcome == Running(q.(registry := reg, librariesChanged := map[], lastLibraryChange := 0))
  {
    assert Enumerates([path], q.librariesChanged.Keys);
    var pending := PendingRequests([path], q.librariesChanged);
    assert pending == [Request(path, state)];
    assert ApplyRequests(q.registry, pending, files, hostHash) == ApplyRequest(q.registry, pending[0], files, hostHash) by {
      assert pending[..0] == [];
    }
  }
}
