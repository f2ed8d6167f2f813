/**
 * Classification of raw file-watcher events by the two listeners of the
 * script hot-swap manager.
 *
 * The library listener turns an event in the library directory into at most
 * two load/reload/unload requests; the source listener turns an event in the
 * source tree into at most one compile request for a tracked module.
 * Filesystem queries are passed in as facts.
 */
module ScriptEvents {
  import opened Wrappers
  import opened ScriptNames

  /** The four actions the watcher reports. */
  datatype Action = Add | Delete | Modified | Moved

  /** What a queued library change asks for. */
  datatype LibraryChangedState = Load | Reload | Unload

  /** A queued library change: a file name inside the library directory and its state. */
  datatype Request = Request(path: string, state: LibraryChangedState)

  /** The state queued for a script-library file by a non-rename action. */
  function StateForAction(a: Action): LibraryChangedState
    requires a != Moved
  {
    match a
    case Add => Load
    case Delete => Unload
    case Modified => Reload
  }

  /**
   * The library listener as written. On a rename from a script-library name
   * to some other name it queues the unload under the NEW file name.
   */
  function ClassifyLibraryEventAsWritten(p: Platform, filename: string, action: Action, oldFilename: string): (r: seq<Request>)
    ensures |r| <= 2
    ensures !IsScriptModule(p, filename) && !(action == Moved && IsScriptModule(p, oldFilename)) ==> r == []
    ensures !IsScriptModule(p, filename) && action == Moved && oldFilename != "" && IsScriptModule(p, oldFilename) ==>
              r == [Request(filename, Unload)]
    ensures IsScriptModule(p, filename) ==> |r| >= 1 && r[|r| - 1].path == filename
    ensures IsScriptModule(p, filename) ==> r == ClassifyScriptLibraryEvent(p, filename, action, oldFilename)
  {
    if !IsScriptModule(p, filename) then
      if oldFilename != "" && action == Moved && IsScriptModule(p, oldFilename) then
        [Request(filename, Unload)]
      else
        []
    else
      ClassifyScriptLibraryEvent(p, filename, action, oldFilename)
  }

  /**
   * The library listener with the rename-away case fixed: the unload names
   * the OLD file name, which is the one that was loaded.
   */
  function ClassifyLibraryEvent(p: Platform, filename: string, action: Action, oldFilename: string): (r: seq<Request>)
    ensures |r| <= 2
    ensures !IsScriptModule(p, filename) && !(action == Moved && IsScriptModule(p, oldFilename)) ==> r == []
    ensures !IsScriptModule(p, filename) && action == Moved && oldFilename != "" && IsScriptModule(p, oldFilename) ==>
              r == [Request(oldFilename, Unload)]
    ensures IsScriptModule(p, filename) ==> |r| >= 1 && r[|r| - 1].path == filename
    ensures IsScriptModule(p, filename) ==> r == ClassifyScriptLibraryEvent(p, filename, action, oldFilename)
    ensures forall i :: 0 <= i < |r| ==> r[i].path == filename || r[i].path == oldFilename
    ensures forall i :: 0 <= i < |r| ==>
              IsScriptModule(p, r[i].path) || (action == Moved && r[i].path == oldFilename)
  {
    if !IsScriptModule(p, filename) then
      if oldFilename != "" && action == Moved && IsScriptModule(p, oldFilename) then
        [Request(oldFilename, Unload)]
      else
        []
    else
      ClassifyScriptLibraryEvent(p, filename, action, oldFilename)
  }

  /**
   * The branch shared by both versions: `filename` is a script library. A
   * rename from a non-library name counts as an addition; a rename between two
   * library names unloads the old name and loads the new one.
   */
  function ClassifyScriptLibraryEvent(p: Platform, filename: string, action: Action, oldFilename: string): (r: seq<Request>)
    requires IsScriptModule(p, filename)
    ensures 1 <= |r| <= 2
    ensures r[|r| - 1].path == filename
    ensures action != Moved ==> r == [Request(filename, StateForAction(action))]
    ensures action == Moved && oldFilename != "" && !IsScriptModule(p, oldFilename) ==> r == [Request(filename, Load)]
    ensures action == Moved && (oldFilename == "" || IsScriptModule(p, oldFilename)) ==>
              r == [Request(oldFilename, Unload), Request(filename, Load)]
  {
    var effective := if oldFilename != "" && action == Moved && !IsScriptModule(p, oldFilename) then Add else action;
    match effective
    case Add => [Request(filename, Load)]
    case Delete => [Request(filename, Unload)]
    case Modified => [Request(filename, Reload)]
    case Moved => [Request(oldFilename, Unload), Request(filename, Load)]
  }

  /**
   * The as-written listener queues an unload of a name that is not a script
   * library when a library is renamed to a non-library name; the loaded
   * library's own name is never unloaded.
   */
  lemma RenameAwayUnloadsWrongName(p: Platform, filename: string, oldFilename: string)
    requires IsScriptModule(p, oldFilename)
    requires !IsScriptModule(p, filename)
    ensures ClassifyLibraryEventAsWritten(p, filename, Moved, oldFilename) == [Request(filename, Unload)]
    ensures forall i :: 0 <= i < |ClassifyLibraryEventAsWritten(p, filename, Moved, oldFilename)| ==>
              ClassifyLibraryEventAsWritten(p, filename, Moved, oldFilename)[i].path != oldFilename
    ensures ClassifyLibraryEvent(p, filename, Moved, oldFilename) == [Request(oldFilename, Unload)]
  {
    assert oldFilename != "";
  }

  /** A concrete instance: renaming `libscripts_foo.so` to `foo.txt` on posix. */
  lemma RenameAwayExample()
    ensures ClassifyLibraryEventAsWritten(Posix, "foo.txt", Moved, "libscripts_foo.so") == [Request("foo.txt", Unload)]
    ensures ClassifyLibraryEvent(Posix, "foo.txt", Moved, "libscripts_foo.so") == [Request("libscripts_foo.so", Unload)]
  {
    LibraryFileNameIsScriptModule(Posix, 's', "foo");
    assert LibraryFileName(Posix, 's', "foo") == "libscripts_foo.so";
    assert !IsScriptModule(Posix, "foo.txt");
  }

  // ---------------------------------------------------------------------
  // Source listener

  /** The last path component: the text after the final `/`. */
  function LastComponent(s: string): (r: string)
    ensures |r| <= |s|
    ensures r == s[|s| - |r|..]
    ensures forall i :: 0 <= i < |r| ==> r[i] != '/'
  {
    if s == [] then []
    else if s[|s| - 1] == '/' then []
    else LastComponent(s[..|s| - 1]) + [s[|s| - 1]]
  }

  /** The text from the final dot of `s` on, if `s` contains a dot. */
  function FromLastDot(s: string): (r: Option<string>)
    ensures r.Some? ==> 1 <= |r.value| <= |s| && r.value[0] == '.' && r.value == s[|s| - |r.value|..]
    ensures r.Some? ==> forall i :: 1 <= i < |r.value| ==> r.value[i] != '.'
    ensures r.None? <==> forall i :: 0 <= i < |s| ==> s[i] != '.'
  {
    if s == [] then None
    else if s[|s| - 1] == '.' then Some(".")
    else match FromLastDot(s[..|s| - 1])
      case None => None
      case Some(e) =>
        assert s == s[..|s| - 1] + [s[|s| - 1]];
        Some(e + [s[|s| - 1]])
  }

  /** The extension of a path, dot included; empty for `.`, `..` and dot-free names. */
  function Extension(path: string): string
  {
    var name := LastComponent(path);
    if name == "." || name == ".." then ""
    else match FromLastDot(name)
      case None => ""
      case Some(e) => e
  }

  /** The extensions the recompiler watches: `.h`, `.hpp`, `.c`, `.cc`, `.cpp`. */
  predicate IsSourceExtension(ext: string)
  {
    ext in {".h", ".hpp", ".c", ".cc", ".cpp"}
  }

  /** The first component of a relative path: the text before the first `/`. */
  function FirstComponent(s: string): (r: string)
    ensures |r| <= |s| && r == s[..|r|]
    ensures forall i :: 0 <= i < |r| ==> r[i] != '/'
    ensures |r| < |s| ==> s[|r|] == '/'
  {
    if s == [] || s[0] == '/' then []
    else [s[0]] + FirstComponent(s[1..])
  }

  /** What the filesystem says about a changed source file at the time of the event. */
  datatype SourceFacts = SourceFacts(isRegularFile: bool, rootIsDirectory: bool)

  /**
   * The module to recompile for a change of `filename` (relative to the source
   * tree), if any. The action kind plays no part.
   */
  function SourceChangeModule(filename: string, facts: SourceFacts, tracked: set<string>): (r: Option<string>)
    ensures r.Some? <==>
              && facts.isRegularFile
              && IsSourceExtension(Extension(filename))
              && facts.rootIsDirectory
              && FirstComponent(filename) in tracked
    ensures r.Some? ==> r.value == FirstComponent(filename) && r.value in tracked
  {
    if !facts.isRegularFile || Extension(filename) == "" then None
    else if !IsSourceExtension(Extension(filename)) then None
    else if filename == [] then None
    else if !facts.rootIsDirectory then None
    else if FirstComponent(filename) !in tracked then None
    else Some(FirstComponent(filename))
  }

  /** A path ending in `.` + a dot-free, slash-free nonempty suffix has exactly that extension. */
  lemma {:induction false} ExtensionOfSuffix(path: string, ext: string)
    requires |ext| >= 2 && ext[0] == '.'
    requires forall i :: 1 <= i < |ext| ==> ext[i] != '.' && ext[i] != '/'
    requires |path| >= |ext| && path[|path| - |ext|..] == ext
    ensures Extension(path) == ext
  {
    LastComponentKeepsSuffix(path, ext);
    var name := LastComponent(path);
    assert name[|name| - |ext|..] == ext;
    FromLastDotOfSuffix(name, ext);
    assert name != "." && name != "..";
  }

  /** The last component of a path ends with every slash-free suffix of the path. */
  lemma {:induction false} LastComponentKeepsSuffix(path: string, suffix: string)
    requires |path| >= |suffix| && path[|path| - |suffix|..] == suffix
    requires forall i :: 0 <= i < |suffix| ==> suffix[i] != '/'
    ensures |LastComponent(path)| >= |suffix|
    ensures LastComponent(path)[|LastComponent(path)| - |suffix|..] == suffix
  {
    if suffix == [] {
    } else {
      var last := path[|path| - 1];
      assert last == suffix[|suffix| - 1];
      var init := path[..|path| - 1];
      var suffixInit := suffix[..|suffix| - 1];
      assert init[|init| - |suffixInit|..] == suffixInit;
      LastComponentKeepsSuffix(init, suffixInit);
      assert LastComponent(path) == LastComponent(init) + [last];
    }
  }

  /** `FromLastDot` of a name ending in a dot-suffix is that suffix. */
  lemma {:induction false} FromLastDotOfSuffix(name: string, ext: string)
    requires |ext| >= 1 && ext[0] == '.'
    requires forall i :: 1 <= i < |ext| ==> ext[i] != '.'
    requires |name| >= |ext| && name[|name| - |ext|..] == ext
    ensures FromLastDot(name) == Some(ext)
  {
    if |ext| == 1 {
      assert name[|name| - 1] == '.';
    } else {
      var last := name[|name| - 1];
      assert last == ext[|ext| - 1] && last != '.';
      var init := name[..|name| - 1];
      var extInit := ext[..|ext| - 1];
      assert init[|init| - |extInit|..] == extInit;
      FromLastDotOfSuffix(init, extInit);
      assert ext == extInit + [last];
    }
  }

  /** Every file whose name ends in one of the five watched extensions passes the extension test. */
  lemma SourceExtensionsAccepted(path: string, ext: string)
    requires IsSourceExtension(ext)
    requires |path| >= |ext| && path[|path| - |ext|..] == ext
    ensures IsSourceExtension(Extension(path))
    ensures Extension(path) == ext
  {
    ExtensionOfSuffix(path, ext);
  }
}
