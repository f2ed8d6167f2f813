/**
 * The database loader pipeline.
 *
 * Registering a database pushes deferred steps onto LIFO stacks: an
 * open/close pair, populate and update steps when automatic updates are
 * enabled for it, and a prepare step. Loading runs the open, populate,
 * update and prepare phases in that order and stops at the first failure;
 * only a failure while opening closes what was opened before.
 *
 * A stack is a sequence whose top is its LAST element. A deferred step is
 * represented by the database it belongs to; what the step's effects
 * (configuration lookups, MySQL calls, the updater) return is passed in.
 */
module DatabaseLoader {
  import opened Wrappers


  /** MySQL's "unknown database" error code. */
  const ErBadDbError: nat := 1049

  /** The uint32 range. */
  const Uint32Modulus: int := 0x1_0000_0000

  /**
   * A registered database as its deferred steps see it: its configuration
   * name and whether automatic updates were enabled for it when it was
   * registered.
   */
  datatype Database = Database(name: string, updatesEnabled: bool)

  /** The loader: its settings and its five stacks. */
  datatype Loader = Loader(
    autoSetup: bool,
    updateFlags: nat,
    open: seq<Database>,
    close: seq<Database>,
    populate: seq<Database>,
    update: seq<Database>,
    prepare: seq<Database>)

  /**
   * A new loader: auto-setup defaults to true and the update mask to the
   * caller's default; the configured int is read back as a uint32.
   */
  function NewLoader(autoSetupConfig: Option<bool>, enableDatabasesConfig: Option<int>, defaultUpdateMask: nat): (l: Loader)
    requires defaultUpdateMask < Uint32Modulus
    ensures l.open == [] && l.close == [] && l.populate == [] && l.update == [] && l.prepare == []
    ensures l.autoSetup == (autoSetupConfig.None? || autoSetupConfig.value)
    ensures l.updateFlags < Uint32Modulus
    ensures enableDatabasesConfig.None? ==> l.updateFlags == defaultUpdateMask
    ensures enableDatabasesConfig.Some? && 0 <= enableDatabasesConfig.value < Uint32Modulus ==>
              l.updateFlags == enableDatabasesConfig.value
    ensures enableDatabasesConfig.Some? ==> (l.updateFlags - enableDatabasesConfig.value) % Uint32Modulus == 0
    ensures enableDatabasesConfig == Some(-1) ==> l.updateFlags == Uint32Modulus - 1
  {
    var autoSetup := match autoSetupConfig case None => true case Some(b) => b;
    var flags := match enableDatabasesConfig case None => defaultUpdateMask case Some(v) => v;
    Loader(autoSetup, flags % Uint32Modulus, [], [], [], [], [])
  }

  /**
   * Registers a database: always an open/close pair and a prepare step,
   * and populate and update steps only when updates are enabled for it.
   */
  function AddDatabase(l: Loader, name: string, updatesEnabledForThis: bool): (r: Loader)
    ensures var db := Database(name, updatesEnabledForThis);
            && r.open == l.open + [db]
            && r.prepare == l.prepare + [db]
            && r.populate == (if updatesEnabledForThis then l.populate + [db] else l.populate)
            && r.update == (if updatesEnabledForThis then l.update + [db] else l.update)
            && r.close == l.close && r.autoSetup == l.autoSetup && r.updateFlags == l.updateFlags
  {
    var db := Database(name, updatesEnabledForThis);
    var withSteps := l.(open := l.open + [db], prepare := l.prepare + [db]);
    if updatesEnabledForThis then
      withSteps.(populate := l.populate + [db], update := l.update + [db])
    else withSteps
  }

  /**
   * `sub` is `s` with some elements left out and the rest kept in order:
   * matching from the ends, each element of `sub` is found in `s`.
   */
  predicate IsSubsequence<T(==)>(sub: seq<T>, s: seq<T>)
    decreases |s|
  {
    if sub == [] then true
    else if s == [] then false
    else if sub[|sub| - 1] == s[|s| - 1] then IsSubsequence(sub[..|sub| - 1], s[..|s| - 1])
    else IsSubsequence(sub, s[..|s| - 1])
  }

  /** The databases of a list whose updates are enabled, in order. */
  function WithUpdates(dbs: seq<Database>): (r: seq<Database>)
    ensures |r| <= |dbs|
    ensures forall i :: 0 <= i < |r| ==> r[i].updatesEnabled && r[i] in dbs
    ensures forall db :: db in dbs && db.updatesEnabled ==> db in r
  {
    if dbs == [] then []
    else if dbs[|dbs| - 1].updatesEnabled then WithUpdates(dbs[..|dbs| - 1]) + [dbs[|dbs| - 1]]
    else WithUpdates(dbs[..|dbs| - 1])
  }

  /**
   * The databases with updates are an order-preserving filter of the list:
   * a subsequence that holds each such database as often as the list does
   * and no other.
   */
  lemma {:induction false} WithUpdatesIsOrderedFilter(dbs: seq<Database>)
    ensures IsSubsequence(WithUpdates(dbs), dbs)
    ensures forall db :: multiset(WithUpdates(dbs))[db] == if db.updatesEnabled then multiset(dbs)[db] else 0
  {
    if dbs != [] {
      var init, last := dbs[..|dbs| - 1], dbs[|dbs| - 1];
      assert dbs == init + [last];
      WithUpdatesIsOrderedFilter(init);
      var r := WithUpdates(dbs);
      if last.updatesEnabled {
        assert r == WithUpdates(init) + [last];
        assert r[..|r| - 1] == WithUpdates(init);
      }
    }
  }

  /** Registers a list of databases in order. */
  function AddDatabases(l: Loader, dbs: seq<Database>): Loader
  {
    if dbs == [] then l
    else
      var last := dbs[|dbs| - 1];
      AddDatabase(AddDatabases(l, dbs[..|dbs| - 1]), last.name, last.updatesEnabled)
  }

  /**
   * After registering a list of databases on a fresh loader, the open and
   * prepare stacks hold every database and the populate and update stacks
   * the ones with updates, all in registration order (bottom to top).
   */
  lemma {:induction false} RegistrationStacks(l: Loader, dbs: seq<Database>)
    requires l.open == [] && l.close == [] && l.populate == [] && l.update == [] && l.prepare == []
    ensures AddDatabases(l, dbs).open == dbs
    ensures AddDatabases(l, dbs).prepare == dbs
    ensures AddDatabases(l, dbs).populate == WithUpdates(dbs)
    ensures AddDatabases(l, dbs).update == WithUpdates(dbs)
    ensures AddDatabases(l, dbs).close == []
  {
    if dbs != [] {
      RegistrationStacks(l, dbs[..|dbs| - 1]);
      var last := dbs[|dbs| - 1];
      assert Database(last.name, last.updatesEnabled) == last;
      assert dbs[..|dbs| - 1] + [last] == dbs;
    }
  }

  /** A stack's elements in the order they are popped: top first. */
  function Reverse<T>(s: seq<T>): (r: seq<T>)
    ensures |r| == |s|
    ensures forall i :: 0 <= i < |s| ==> r[i] == s[|s| - 1 - i]
  {
    if s == [] then [] else Reverse(s[1..]) + [s[0]]
  }

  // ---------------------------------------------------------------------
  // One open step

  /**
   * What the configuration and the server say for one database: the
   * connection string (empty when not configured), the configured worker
   * and synchronous thread counts (defaults already applied), the error of
   * the first open (0 on success), whether creating the database succeeds
   * and the error of the reopen after creating it.
   */
  datatype PoolEnv = PoolEnv(
    connectionString: string,
    workerThreads: int,
    synchThreads: int,
    openError: nat,
    createSucceeds: bool,
    reopenError: nat)

  /** How one open step ended. */
  datatype OpenResult =
    | NotSpecified
    | InvalidWorkerThreads(threads: nat)
    | Opened
    | CreatedAndOpened
    | NotOpened(error: nat)
  {
    predicate Succeeded() { this == Opened || this == CreatedAndOpened }
  }

  /** The configured int read as a uint8: reduced modulo 256. */
  function AsUint8(v: int): (r: nat)
    ensures r < 256
    ensures (r - v) % 256 == 0
  {
    v % 256
  }

  /**
   * The open step of one database: reject an empty connection string, then
   * a worker-thread count outside 1..32 after uint8 truncation; then open,
   * and after an "unknown database" error try to create the database and
   * open again, but only when updates are enabled for it and auto-setup is
   * on.
   */
  function OpenStep(db: Database, env: PoolEnv, autoSetup: bool): (r: OpenResult)
    ensures env.connectionString == [] <==> r == NotSpecified
    ensures env.connectionString != [] && !(1 <= AsUint8(env.workerThreads) <= 32) <==> r.InvalidWorkerThreads?
    ensures r == Opened <==> env.connectionString != [] && 1 <= AsUint8(env.workerThreads) <= 32 && env.openError == 0
    ensures r == CreatedAndOpened <==>
              && env.connectionString != [] && 1 <= AsUint8(env.workerThreads) <= 32
              && env.openError == ErBadDbError && db.updatesEnabled && autoSetup
              && env.createSucceeds && env.reopenError == 0
    ensures r.NotOpened? ==> r.error == env.openError && r.error != 0
  {
    if env.connectionString == [] then NotSpecified
    else
      var asyncThreads := AsUint8(env.workerThreads);
      if asyncThreads < 1 || asyncThreads > 32 then InvalidWorkerThreads(asyncThreads)
      else if env.openError == 0 then Opened
      else if env.openError == ErBadDbError && db.updatesEnabled && autoSetup
              && env.createSucceeds && env.reopenError == 0 then CreatedAndOpened
      else NotOpened(env.openError)
  }

  /** The thread-count check sees the truncated value: 257 and 288 pass, 0, 33 and 256 do not. */
  lemma WorkerThreadTruncation(db: Database, env: PoolEnv, autoSetup: bool)
    requires env.connectionString != [] && env.openError == 0
    ensures env.workerThreads == 257 ==> OpenStep(db, env, autoSetup) == Opened
    ensures env.workerThreads == 288 ==> OpenStep(db, env, autoSetup) == Opened
    ensures env.workerThreads == 256 ==> OpenStep(db, env, autoSetup) == InvalidWorkerThreads(0)
    ensures env.workerThreads == 33 ==> OpenStep(db, env, autoSetup) == InvalidWorkerThreads(33)
    ensures env.workerThreads == 0 ==> OpenStep(db, env, autoSetup) == InvalidWorkerThreads(0)
    ensures env.workerThreads == -255 ==> OpenStep(db, env, autoSetup) == Opened
  {
  }

  /** Without updates for the database, an "unknown database" error is never recovered. */
  lemma NoRecoveryWithoutUpdates(db: Database, env: PoolEnv, autoSetup: bool)
    requires !db.updatesEnabled || !autoSetup
    requires env.openError != 0
    ensures !OpenStep(db, env, autoSetup).Succeeded()
  {
  }

  // ---------------------------------------------------------------------
  // The phases

  /** `k` is the first failing element when popping from the top: the highest failing index. */
  predicate IsTopFailure(s: seq<Database>, ok: Database -> bool, k: nat)
  {
    k < |s| && !ok(s[k]) && forall j :: k < j < |s| ==> ok(s[j])
  }

  /** The failing element seen first from the top is unique. */
  lemma TopFailureUnique(s: seq<Database>, ok: Database -> bool, k: nat, k': nat)
    requires IsTopFailure(s, ok, k) && IsTopFailure(s, ok, k')
    ensures k == k'
  {
  }

  /**
   * Pops and runs predicates until one returns false. On success the stack
   * is empty and every element ran, top first; on failure the failing
   * element stays on top and nothing below it ran.
   */
  method Process(stack: seq<Database>, ok: Database -> bool) returns (rest: seq<Database>, success: bool, ran: seq<Database>)
    ensures success <==> forall i :: 0 <= i < |stack| ==> ok(stack[i])
    ensures success ==> rest == [] && ran == Reverse(stack)
    ensures !success ==> exists k: nat :: IsTopFailure(stack, ok, k) && rest == stack[..k + 1] && ran == Reverse(stack[k..])
  {
    rest := stack;
    ran := [];
    while rest != []
      invariant rest == stack[..|rest|]
      invariant forall j :: |rest| <= j < |stack| ==> ok(stack[j])
      invariant ran == Reverse(stack[|rest|..])
      decreases |rest|
    {
      var top := rest[|rest| - 1];
      assert stack[|rest| - 1..] == [top] + stack[|rest|..];
      ran := ran + [top];
      if !ok(top) {
        assert IsTopFailure(stack, ok, |rest| - 1);
        return rest, false, ran;
      }
      rest := rest[..|rest| - 1];
    }
    return rest, true, ran;
  }

  /**
   * Opens every database, top of the stack first. Each successful open
   * pushes its closer. At the first failure every closer on the close stack
   * runs, most recent first, the close stack ends empty, and the failing
   * database stays on the open stack; its own closer never runs.
   */
  method OpenDatabases(l: Loader, env: string -> PoolEnv) returns (r: Loader, success: bool, closed: seq<Database>)
    ensures var ok := (db: Database) => OpenStep(db, env(db.name), l.autoSetup).Succeeded();
            && (success <==> forall i :: 0 <= i < |l.open| ==> ok(l.open[i]))
            && (success ==> r.open == [] && r.close == l.close + Reverse(l.open) && closed == [])
            && (!success ==> exists k: nat :: IsTopFailure(l.open, ok, k) && r.open == l.open[..k + 1] && r.close == []
                                         && closed == Reverse(l.close + Reverse(l.open[k + 1..])))
    ensures r == l.(open := r.open, close := r.close)
  {
    var ok := (db: Database) => OpenStep(db, env(db.name), l.autoSetup).Succeeded();
    var open := l.open;
    var close := l.close;
    while open != []
      invariant open == l.open[..|open|]
      invariant forall j :: |open| <= j < |l.open| ==> ok(l.open[j])
      invariant close == l.close + Reverse(l.open[|open|..])
      decreases |open|
    {
      var top := open[|open| - 1];
      assert l.open[|open| - 1..] == [top] + l.open[|open|..];
      if ok(top) {
        close := close + [top];
      } else {
        OpenFailureStops(l.open, l.close, ok, open, close);
        return l.(open := open, close := []), false, Reverse(close);
      }
      open := open[..|open| - 1];
    }
    return l.(open := open, close := close), true, [];
  }

  /**
   * The failure exit of the open phase: the stack below the failing element
   * is what remains, and the closers pushed so far are those of the
   * databases above it.
   */
  lemma OpenFailureStops(stack: seq<Database>, close0: seq<Database>, ok: Database -> bool, open: seq<Database>, close: seq<Database>)
    requires open != [] && |open| <= |stack| && open == stack[..|open|]
    requires forall j :: |open| <= j < |stack| ==> ok(stack[j])
    requires !ok(open[|open| - 1])
    requires close == close0 + Reverse(stack[|open|..])
    ensures exists k: nat :: IsTopFailure(stack, ok, k) && open == stack[..k + 1]
                             && Reverse(close) == Reverse(close0 + Reverse(stack[k + 1..]))
    ensures !forall i :: 0 <= i < |stack| ==> ok(stack[i])
  {
    var k := |open| - 1;
    assert stack[k] == open[k];
    assert IsTopFailure(stack, ok, k);
  }

  /** Which phase a load stopped in. */
  datatype LoadOutcome = Loaded | OpenFailed | PopulateFailed | UpdateFailed | PrepareFailed

  /** What a load did: where it stopped and which closers ran. */
  datatype LoadReport = LoadReport(outcome: LoadOutcome, closed: seq<Database>)

  /** All deferred steps of a stack succeed. */
  predicate AllSucceed(s: seq<Database>, ok: Database -> bool)
  {
    forall i :: 0 <= i < |s| ==> ok(s[i])
  }

  /**
   * Runs the four phases in order and stops at the first failing one. Only
   * the open phase closes anything.
   */
  method Load(l: Loader, env: string -> PoolEnv, populateOk: Database -> bool, updateOk: Database -> bool, prepareOk: Database -> bool)
    returns (r: Loader, report: LoadReport)
    ensures var openOk := (db: Database) => OpenStep(db, env(db.name), l.autoSetup).Succeeded();
            && (report.outcome == Loaded <==>
                  AllSucceed(l.open, openOk) && AllSucceed(l.populate, populateOk)
                  && AllSucceed(l.update, updateOk) && AllSucceed(l.prepare, prepareOk))
            && (report.outcome == OpenFailed <==> !AllSucceed(l.open, openOk))
            && (report.outcome == PopulateFailed <==> AllSucceed(l.open, openOk) && !AllSucceed(l.populate, populateOk))
            && (report.outcome == UpdateFailed <==>
                  AllSucceed(l.open, openOk) && AllSucceed(l.populate, populateOk) && !AllSucceed(l.update, updateOk))
    ensures report.outcome != OpenFailed ==> report.closed == [] && r.open == [] && r.close == l.close + Reverse(l.open)
    ensures report.outcome == OpenFailed ==> r.close == [] && r.populate == l.populate && r.update == l.update && r.prepare == l.prepare
    ensures var openOk := (db: Database) => OpenStep(db, env(db.name), l.autoSetup).Succeeded();
            report.outcome == OpenFailed ==>
              exists k: nat :: IsTopFailure(l.open, openOk, k) && r.open == l.open[..k + 1]
                               && report.closed == Reverse(l.close + Reverse(l.open[k + 1..]))
    ensures report.outcome == Loaded ==> r.populate == [] && r.update == [] && r.prepare == []
    ensures report.outcome == PopulateFailed ==> r.update == l.update && r.prepare == l.prepare
    ensures report.outcome == UpdateFailed ==> r.populate == [] && r.prepare == l.prepare
    ensures report.outcome == PrepareFailed ==> r.populate == [] && r.update == []
    ensures report.outcome == PopulateFailed ==>
              exists k: nat :: IsTopFailure(l.populate, populateOk, k) && r.populate == l.populate[..k + 1]
    ensures report.outcome == UpdateFailed ==>
              exists k: nat :: IsTopFailure(l.update, updateOk, k) && r.update == l.update[..k + 1]
    ensures report.outcome == PrepareFailed ==>
              exists k: nat :: IsTopFailure(l.prepare, prepareOk, k) && r.prepare == l.prepare[..k + 1]
  {
    var afterOpen, ok, closed := OpenDatabases(l, env);
    if !ok {
      return afterOpen, LoadReport(OpenFailed, closed);
    }
    var populateRest, populated, _ := Process(l.populate, populateOk);
    r := afterOpen.(populate := populateRest);
    if !populated {
      return r, LoadReport(PopulateFailed, []);
    }
    var updateRest, updated, _ := Process(l.update, updateOk);
    r := r.(update := updateRest);
    if !updated {
      return r, LoadReport(UpdateFailed, []);
    }
    var prepareRest, prepared, _ := Process(l.prepare, prepareOk);
    r := r.(prepare := prepareRest);
    if !prepared {
      return r, LoadReport(PrepareFailed, []);
    }
    return r, LoadReport(Loaded, []);
  }

  /**
   * Every phase visits the databases in reverse registration order: after
   * registering `dbs`, a successful prepare phase runs them last-registered
   * first.
   */
  method PrepareOrder(dbs: seq<Database>, prepareOk: Database -> bool) returns (ran: seq<Database>)
    requires forall i :: 0 <= i < |dbs| ==> prepareOk(dbs[i])
    ensures ran == Reverse(dbs)
    ensures |dbs| > 0 ==> ran[0] == dbs[|dbs| - 1] && ran[|ran| - 1] == dbs[0]
  {
    var l := AddDatabases(Loader(true, 0, [], [], [], [], []), dbs);
    RegistrationStacks(Loader(true, 0, [], [], [], [], []), dbs);
    var _, _, r := Process(l.prepare, prepareOk);
    ran := r;
  }
}
