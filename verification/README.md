# TrinityCore core services in Dafny

This project models four server components of TrinityCore and proves properties about them.

- **Script hot-swap controller** (`HotSwapScriptReloadMgr`). The model covers:
  - the file-name recogniser for script libraries;
  - the library and source watcher callbacks, which queue load/reload/unload and recompile requests;
  - the registry of running script modules;
  - the per-tick dispatch, which has a one-second hold-back and at most one build or install job.
  - Modules: `ScriptNames`, `ScriptEvents`, `ScriptRegistry`, `ScriptReload`.
- **Phase-mask calculator** (`PhaseMgr`, `PhaseData`, `PhaseUpdateData`). The model covers:
  - the fold of a zone's phasing definitions into a mask, with overwrite, negate and "no more phases" flags;
  - the spawn mask and the game-master-aware current mask;
  - delayed-update flags that hold back sends;
  - condition-change notifications;
  - aura and custom masks.
  - Module: `PhaseMgr`.
- **Database loader pipeline** (`DatabaseLoader`). The model covers:
  - registration onto LIFO stacks;
  - the open step, with its uint8 thread-count truncation and the create-and-reopen recovery;
  - the open phase, which rolls back on failure;
  - the generic `Process` loop;
  - the four-phase `Load`.
  - Module: `DatabaseLoader`.
- **Support-ticket bookkeeping** (`SupportMgr`, `Ticket`). The model covers:
  - ticket predicates and setters;
  - per-kind container selection;
  - subsystem switches;
  - uint32 id generators and open counters;
  - complaint lookup by player;
  - the open and closed listings.
  - Module: `SupportMgr`.

Modelling choices:

- **State.** Everything is immutable data with pure transition functions. Mutable members become functions from the old state to the new one.
- **Inputs from outside.** The operating system, the file system, MySQL, the condition evaluator and the object manager become parameters:
  - files and library outcomes are a function from path to outcome;
  - the iteration order of an unordered map is an `order` sequence that must enumerate its keys;
  - `*_modules_changed.begin()` is a `pick`;
  - a build job's state is a `JobPoll`;
  - the millisecond clock is an explicit `now`;
  - database configuration and server answers are a `PoolEnv` per database;
  - the outcomes of populate, update and prepare steps are predicates;
  - condition checks, the conditions of a definition and terrain-swap lookup are functions.
- **Bit words.** The uint32 phase masks, the uint8 flag bytes and the condition-type word are sets of bit positions:
  - `|` is union, `&~` is set difference, `&` is intersection, and 0 is the empty set;
  - a condition type `t` stands for the bit `1 << t`.
- **Counters.** uint32 and uint64 counters are `nat`, reduced explicitly modulo 2^32 or 2^64.
- **Ids and GUIDs.** Object GUIDs are `nat`, and 0 is the empty GUID. Ids that are only compared or looked up are `nat`.
- **Stacks.** A `std::stack` is a sequence whose top is its last element. A deferred step is represented by the database it belongs to.

Behaviour kept as written:

- **Line 488 of ScriptReloadMgr.cpp.** The library-dispatch hold-back tests whether a compile request is pending (`_last_time_module_changed != 0`). It then measures the time since the last library change. `ScriptReload.LibraryDispatchHeld` keeps exactly that test.
- **The install job.** After a successful compile, the install job is created and then destroyed in the same call (line 727). Destroying an `std::async` future waits for it, so the install runs to completion and its result is dropped. `ScriptReload.DispatchCompileScriptModules` reports it as `installRan`.
- **The order of a library dispatch.** The pending changes are dispatched in the iteration order of an unordered map. A rename between two library names that report the same module name queues an unload of the old path and a load of the new one. When the load comes first it is refused, because the module is still running, and the unload then drops the module. `ScriptReload.LoadBeforeUnloadLosesModule` shows this, and `ScriptReload.AppliedLoadsAreRegistered` states when loads are guaranteed.
- **Closing a closed ticket.** `CloseTicket` decrements the open counter whenever the closer is non-empty, even if the ticket was already closed. `SupportMgr.CloseClosedTicketBreaksCount` shows that the counter then stops matching the number of open tickets. Callers must check `IsClosed` first.

## Model

| member | source | states |
|---|---|---|
| `ScriptNames.SharedLibraryPrefix` | src/server/game/Scripting/ScriptReloadMgr.cpp:70-78 | `lib` on posix and nothing on Windows. Its role in the recogniser is stated by `ScriptNames.ScriptModuleCharacterisation`. |
| `ScriptNames.SharedLibraryExtension` | src/server/game/Scripting/ScriptReloadMgr.cpp:80-88 | `so` on posix and `dll` on Windows. Its role in the recogniser is stated by `ScriptNames.ScriptModuleCharacterisation`. |
| `ScriptNames.IsScriptModule` | src/server/game/Scripting/ScriptReloadMgr.cpp:252-261 | The recogniser. `ScriptNames.ScriptModuleCharacterisation` proves that it accepts exactly the names of the regular expression's shape. |
| `ScriptNames.ModuleToken` | src/server/game/Scripting/ScriptReloadMgr.cpp:252-261 | The token of a recognised library name is a non-empty run of word characters. Its length is the name's length less the prefix, `scripts_`, the dot and the extension. |
| `ScriptNames.LibraryFileNameIsScriptModule` | src/server/game/Scripting/ScriptReloadMgr.cpp:252-261 | Every name built from the prefix, `s`/`S`, `cripts_`, a word token, `.` and the extension is recognised, and its token is recovered. |
| `ScriptNames.ScriptModuleNameRoundTrip` | src/server/game/Scripting/ScriptReloadMgr.cpp:252-261 | A recognised name is rebuilt exactly from its initial letter and its token. |
| `ScriptNames.ScriptModuleCharacterisation` | src/server/game/Scripting/ScriptReloadMgr.cpp:252-261 | The recogniser accepts exactly the names of the regular expression's shape, in both directions. |
| `ScriptEvents.ClassifyLibraryEventAsWritten` | src/server/game/Scripting/ScriptReloadMgr.cpp:842-878 | Non-library names queue nothing, except a rename away from a library name. That rename queues an unload under the new name. A library name is queued exactly as the shared branch classifies it. |
| `ScriptEvents.ClassifyLibraryEvent` | src/server/game/Scripting/ScriptReloadMgr.cpp:842-878 | The corrected listener. A rename away from a library name queues exactly an unload of the old name. A library name is queued exactly as the shared branch classifies it. Every request names the new or the old file. |
| `ScriptEvents.ClassifyScriptLibraryEvent` | src/server/game/Scripting/ScriptReloadMgr.cpp:851-878 | Add, delete and modify queue load, unload and reload. A rename from a non-library name is a load. A rename between library names unloads the old name and then loads the new one. |
| `ScriptEvents.RenameAwayUnloadsWrongName` | src/server/game/Scripting/ScriptReloadMgr.cpp:844-846 | Renaming a library to a non-library name makes the as-written listener unload only the new name, which is not a library. The corrected listener unloads the old name. |
| `ScriptEvents.RenameAwayExample` | src/server/game/Scripting/ScriptReloadMgr.cpp:844-846 | The concrete rename `libscripts_foo.so` → `foo.txt`, for both listeners. |
| `ScriptEvents.SourceChangeModule` | src/server/game/Scripting/ScriptReloadMgr.cpp:881-926 | A source change yields a module exactly when all of these hold: the path is a regular file; its extension is `.h`, `.hpp`, `.c`, `.cc` or `.cpp`; its first component is a directory; and that component is a tracked module. The module is that component. |
| `ScriptEvents.Extension` | src/server/game/Scripting/ScriptReloadMgr.cpp:889-893 | The boost extension of a path. `ScriptEvents.ExtensionOfSuffix` proves what it returns for a dotted suffix. |
| `ScriptEvents.FirstComponent` | src/server/game/Scripting/ScriptReloadMgr.cpp:899-907 | The first component is a slash-free prefix of the path that ends at the first slash or at the end. |
| `ScriptEvents.ExtensionOfSuffix` | src/server/game/Scripting/ScriptReloadMgr.cpp:889-893 | A path ending in a dot and a dot-free, slash-free suffix has exactly that extension. |
| `ScriptEvents.SourceExtensionsAccepted` | src/server/game/Scripting/ScriptReloadMgr.cpp:893-896 | Every path ending in one of the five source extensions passes the extension test. |
| `ScriptRegistry.CreateFromPath` | src/server/game/Scripting/ScriptReloadMgr.cpp:221-250 | Opening succeeds exactly when the library opens and all three functions resolve. A load failure is distinguished from a missing function. |
| `ScriptRegistry.TrimRevision` | src/server/game/Scripting/ScriptReloadMgr.cpp:553-555 | The module hash is cut to its first seven characters. A shorter hash is kept whole. |
| `ScriptRegistry.CheckRevision` | src/server/game/Scripting/ScriptReloadMgr.cpp:561-577 | An empty hash is reported as empty. Otherwise the hashes match exactly when they agree on the length of the shorter one. |
| `ScriptRegistry.ValidNamesAreRunning` | src/server/game/Scripting/ScriptReloadMgr.cpp:818-819 | Under the registry invariant, the path-to-name map is a bijection onto the running modules. |
| `ScriptRegistry.ProcessLoad` | src/server/game/Scripting/ScriptReloadMgr.cpp:522-600 | A load registers the module exactly when the copy succeeds, the library opens and the name is not running. Every failure leaves the registry unchanged. The invariant is kept. |
| `ScriptRegistry.ProcessUnload` | src/server/game/Scripting/ScriptReloadMgr.cpp:608-625 | An unknown path changes nothing. A known path loses its entry and its module's. The invariant is kept. |
| `ScriptRegistry.ProcessReload` | src/server/game/Scripting/ScriptReloadMgr.cpp:602-606 | A reload is an unload followed by a load. When the load fails, the path stays unloaded. |
| `ScriptRegistry.UnloadUndoesLoad` | src/server/game/Scripting/ScriptReloadMgr.cpp:522-625 | Unloading a freshly loaded path gives back the registry it was loaded into. |
| `ScriptRegistry.ReloadSameNameSucceeds` | src/server/game/Scripting/ScriptReloadMgr.cpp:602-606 | Reloading a running library that still reports the same module name succeeds, because the unload frees the name first. |
| `ScriptRegistry.InitializeDefaultLibraries` | src/server/game/Scripting/ScriptReloadMgr.cpp:432-449 | The count is the number of qualifying entries. Earlier registrations are kept unchanged, and a new one maps its path to the module name its library reports. Every registered path qualifies or was registered before. Every qualifying entry that can be copied and opened ends up registered, unless its module name is running under another path. The invariant is kept. |
| `ScriptRegistry.ScanEntry` | src/server/game/Scripting/ScriptReloadMgr.cpp:441-446 | A qualifying entry is loaded and any other is skipped. Other paths are untouched. A loadable entry is registered unless its module name is already running. |
| `ScriptRegistry.ScanLoadsEveryDistinctModule` | src/server/game/Scripting/ScriptReloadMgr.cpp:432-449 | When the qualifying libraries report pairwise distinct module names that are not running, the scan registers every one of them that can be copied and opened. |
| `ScriptReload.InitialManager` | src/server/game/Scripting/ScriptReloadMgr.cpp:333-334 | A new manager has an empty registry, no pending library changes or compiles, zero time stamps and no build job. |
| `ScriptReload.UpdateModuleEntry` | src/server/game/Scripting/ScriptReloadMgr.cpp:473-484 | The path's pending state is overwritten or inserted, other entries are unchanged, and the library-change stamp is updated. |
| `ScriptReload.QueueRequests` | src/server/game/Scripting/ScriptReloadMgr.cpp:407-420 | After queueing several requests, each path holds the state of its last request. |
| `ScriptReload.QueueOne` | src/server/game/Scripting/ScriptReloadMgr.cpp:473-484 | Queueing one request is one entry update. |
| `ScriptReload.OnLibraryEvent` | src/server/game/Scripting/ScriptReloadMgr.cpp:833-879 | The listener with the rename-away case corrected. A library name queues its action's state, and a rename from a non-library name queues a load. A rename to a library name from a library name, or from an empty old name, queues an unload of the old name, then a load of the new one. A rename away queues an unload of the old name. A non-library name that is not renamed away from a library changes nothing. Registry, compiles and job are untouched. |
| `ScriptReload.OnLibraryEventAsWritten` | src/server/game/Scripting/ScriptReloadMgr.cpp:842-846 | As written, a rename away from a library name queues an unload under the new, non-library name. Every other event is queued as by the corrected listener. |
| `ScriptReload.CompileScriptModule` | src/server/game/Scripting/ScriptReloadMgr.cpp:422-427 | The module joins the set of pending compiles, so repeats collapse, and the module-change stamp is updated. |
| `ScriptReload.OnSourceEvent` | src/server/game/Scripting/ScriptReloadMgr.cpp:881-926 | A source event adds at most its first path component, and only when every filter passes. |
| `ScriptReload.ApplyRequest` | src/server/game/Scripting/ScriptReloadMgr.cpp:507-518 | A load aborts exactly when its path is registered, and otherwise is `ProcessLoad`. A reload is `ProcessReload` and an unload is `ProcessUnload`. Every other path keeps its registration. |
| `ScriptReload.ApplyRequests` | src/server/game/Scripting/ScriptReloadMgr.cpp:505-519 | An abort names a load request of the batch. Paths the batch does not name keep their registrations. The invariant is kept. |
| `ScriptReload.ApplyRequestsInOrder` | src/server/game/Scripting/ScriptReloadMgr.cpp:505-519 | Requests are applied one after the other: a batch split anywhere runs as its first part, then, unless that aborted, its second part. |
| `ScriptReload.ModulesComeFromBatch` | src/server/game/Scripting/ScriptReloadMgr.cpp:505-519 | Every module running after a batch was running before it or is reported by one of its loads or reloads. |
| `ScriptReload.AppliedLoadsAreRegistered` | src/server/game/Scripting/ScriptReloadMgr.cpp:505-606 | In a batch that names each path once, whose loads report distinct module names and that runs to the end, every load or reload is registered afterwards if its library can be copied and opened and its module name was free before the batch. |
| `ScriptReload.LastLoadIsRegistered` | src/server/game/Scripting/ScriptReloadMgr.cpp:507-513 | The last request of such a batch registers its path. |
| `ScriptReload.LoadStepRegisters` | src/server/game/Scripting/ScriptReloadMgr.cpp:522-600 | A load of a library that can be copied and opened registers its path when its module name is not running. |
| `ScriptReload.ReloadStepRegisters` | src/server/game/Scripting/ScriptReloadMgr.cpp:602-606 | A reload registers its path when its module name is not running or is running from that same path. |
| `ScriptReload.LoadBeforeUnloadLosesModule` | src/server/game/Scripting/ScriptReloadMgr.cpp:505-519 | The order of a batch matters. A load refused because another path runs its module name, followed by the unload of that path, leaves the module running nowhere. The opposite order loads it. |
| `ScriptReload.AppliedUnloadsStayUnloaded` | src/server/game/Scripting/ScriptReloadMgr.cpp:505-519 | When a batch names each path once and runs to the end, every path it asked to unload is unregistered afterwards. |
| `ScriptReload.LibraryDispatchHeld` | src/server/game/Scripting/ScriptReloadMgr.cpp:488-490 | The hold-back test as written: a compile request is pending and the last library change is less than a second old. `ScriptReload.DispatchScriptModuleChanges` states that a held dispatch changes nothing. |
| `ScriptReload.DispatchScriptModuleChanges` | src/server/game/Scripting/ScriptReloadMgr.cpp:486-520 | A held or empty queue changes nothing. Otherwise every pending entry is dispatched once, with its state and in iteration order. The resulting registry, or the abort, is that of applying exactly those requests. The queue and stamp are cleared. |
| `ScriptReload.DispatchLoadEffect` | src/server/game/Scripting/ScriptReloadMgr.cpp:486-520 | After a dispatch that lets the process run on, every path pending a load or reload is registered. This holds when its library can be copied and opened, the pending loads report distinct module names, and its name was free before. |
| `ScriptReload.PendingLoadsAreRegistered` | src/server/game/Scripting/ScriptReloadMgr.cpp:505-519 | The same for the pending map listed in its iteration order. |
| `ScriptReload.DispatchRegistryEffect` | src/server/game/Scripting/ScriptReloadMgr.cpp:486-520 | After a dispatch that lets the process run on, every path pending an unload is unregistered. Every path that was not pending keeps its registration. |
| `ScriptReload.ProjectName` | src/server/game/Scripting/ScriptReloadMgr.cpp:753-755 | The build target is `scripts_` followed by the module name, lower-cased character by character. |
| `ScriptReload.ProjectNameIgnoresCase` | src/server/game/Scripting/ScriptReloadMgr.cpp:753-755 | Module names that differ only in letter case share a build target. |
| `ScriptReload.CompileHeld` | src/server/game/Scripting/ScriptReloadMgr.cpp:730-732 | The compile hold-back: a compile request is pending and less than a second old. `ScriptReload.DispatchCompileScriptModules` states that a compile starts only when it does not hold. |
| `ScriptReload.DispatchCompileScriptModules` | src/server/game/Scripting/ScriptReloadMgr.cpp:651-797 | A job that is not ready ends the call. A ready result empties the slot, and a successful compile runs its install. A compile of the picked module starts exactly when the slot is free or ready, a module is pending and no compile request is younger than one second. A start then dispatches the pending library changes; `ScriptReload.DispatchCompileRegistryEffect` states what that dispatch does to the registry. |
| `ScriptReload.DispatchCompileRegistryEffect` | src/server/game/Scripting/ScriptReloadMgr.cpp:794-797 | The registry after the build-job part of a tick, or its abort, is that of applying exactly the library changes dispatched at line 796, and a call that dispatched nothing leaves the registry unchanged. |
| `ScriptReload.Update` | src/server/game/Scripting/ScriptReloadMgr.cpp:385-389 | A tick removes a started module from the pending set, keeps the clock invariant and keeps the registry invariant. |
| `ScriptReload.UpdateRegistryEffect` | src/server/game/Scripting/ScriptReloadMgr.cpp:385-389 | The registry after a tick, or its abort, is that of applying exactly the library changes the tick dispatched, at line 796 or line 388. A tick that dispatched nothing leaves the registry unchanged. |
| `ScriptReload.UpdateStartsCompileWhenDue` | src/server/game/Scripting/ScriptReloadMgr.cpp:730-758 | A tick starts a Release compile of the picked module's lower-cased project exactly when the slot is free or ready, a module is pending and the hold-back has passed. |
| `ScriptReload.UpdateDispatchesAtMostOnce` | src/server/game/Scripting/ScriptReloadMgr.cpp:385-389 | Within a tick the pending library changes are dispatched at most once, and the queue is empty afterwards. |
| `ScriptReload.UpdateWaitsForRunningJob` | src/server/game/Scripting/ScriptReloadMgr.cpp:653-725 | While the job is not ready, nothing starts, no install runs, and the job and pending compiles are untouched. |
| `ScriptReload.InstallJobIsDiscarded` | src/server/game/Scripting/ScriptReloadMgr.cpp:661-727 | A successful compile runs its install. The slot never keeps an install job. |
| `ScriptReload.DeleteThenAddAborts` | src/server/game/Scripting/ScriptReloadMgr.cpp:522-524 | Deleting and re-adding a running library within one hold-back window leaves a load pending for a registered path. Dispatching it aborts. |
| `ScriptReload.RenameAwayScenario` | src/server/game/Scripting/ScriptReloadMgr.cpp:842-849 | After a rename away, the as-written listener leaves the module loaded. The corrected listener unloads it. |
| `PhaseMgr.Reset` | src/server/game/Maps/PhaseMgr.h:80 | Reset clears the definition mask, terrain swap and phase id, and sets the normal-phase flag. Aura and custom masks stay. |
| `PhaseMgr.NewPhaseData` | src/server/game/Maps/PhaseMgr.h:70 | New phase data has zero aura and custom masks and is in reset state. |
| `PhaseMgr.ResetIdempotent` | src/server/game/Maps/PhaseMgr.h:80 | Resetting twice is the same as resetting once. The result depends only on the aura and custom masks. |
| `PhaseMgr.UseTerrainSwap` | src/server/game/Maps/PhaseMgr.cpp:201-210 | Only the terrain-swap map and phase id change. |
| `PhaseMgr.IsOverwritingExistingPhases` | src/server/game/Maps/PhaseMgr.h:52 | The overwrite flag of a definition. `PhaseMgr.OverwriteForgetsEarlierMask` states its effect. |
| `PhaseMgr.IsLastDefinition` | src/server/game/Maps/PhaseMgr.h:53 | The "no more phases" flag. `PhaseMgr.FoldStopsAtLastDefinition` states its effect. |
| `PhaseMgr.IsNegatingPhasemask` | src/server/game/Maps/PhaseMgr.h:54 | The negate flag. `PhaseMgr.AddPhasingDefinitionToPhase` states its effect. |
| `PhaseMgr.AddPhasingDefinitionToPhase` | src/server/game/Maps/PhaseMgr.cpp:121-135 | Overwrite replaces the mask and wins over negate. Negate clears the definition's bits and a plain definition sets them; in both cases other bits keep their value. A normal-phase flag becomes no-terrain-swap. |
| `PhaseMgr.FoldDefinitions` | src/server/game/Maps/PhaseMgr.cpp:79-89 | The conditional, early-stopping walk over a zone's definitions. `PhaseMgr.FoldAppliesExactlyApplied` proves that it applies exactly the definitions that take effect. |
| `PhaseMgr.Applied` | src/server/game/Maps/PhaseMgr.cpp:79-89 | The definitions that take effect pass their conditions and come from the zone's list. Only the last of them can carry the "no more phases" flag. Every passing definition with no passing "no more phases" definition before it is among them. |
| `PhaseMgr.AppliedIsPassingPrefix` | src/server/game/Maps/PhaseMgr.cpp:79-89 | The definitions that take effect are exactly the passing ones, in order, cut after the first passing "no more phases" definition. |
| `PhaseMgr.FoldAppliesExactlyApplied` | src/server/game/Maps/PhaseMgr.cpp:79-89 | The conditional, early-stopping fold equals the unconditional application of the definitions that take effect. |
| `PhaseMgr.FoldPhaseIdIsLastApplied` | src/server/game/Maps/PhaseMgr.cpp:77-89 | The resulting phase id is that of the last applied definition, or is unchanged when none applies. |
| `PhaseMgr.FailingDefinitionsAreIgnored` | src/server/game/Maps/PhaseMgr.cpp:79-89 | Removing a failing definition, wherever it stands, does not change the fold. |
| `PhaseMgr.FoldStopsAtLastDefinition` | src/server/game/Maps/PhaseMgr.cpp:86-87 | Definitions after the first passing "no more phases" definition are irrelevant. |
| `PhaseMgr.OverwriteForgetsEarlierMask` | src/server/game/Maps/PhaseMgr.cpp:121-124 | Once an applied definition overwrites, the mask before it no longer matters. |
| `PhaseMgr.RecalculateAfterOverwrite` | src/server/game/Maps/PhaseMgr.cpp:121-130 | When an applied definition overwrites, the fold's mask does not depend on the starting mask. |
| `PhaseMgr.ApplyAllFlag` | src/server/game/Maps/PhaseMgr.cpp:133-134 | Starting from the normal-phase flag, the flag ends as no-terrain-swap exactly when some definition was applied. |
| `PhaseMgr.ApplyAllKeepsOtherFields` | src/server/game/Maps/PhaseMgr.cpp:79-89 | The fold changes only the definition mask and the flag. |
| `PhaseMgr.Recalculate` | src/server/game/Maps/PhaseMgr.cpp:70-98 | A zone without definitions just resets. Otherwise: the mask is the application of the definitions that take effect; the flag records whether any applied; and a terrain swap is used only for a nonzero last phase id that has one. Aura and custom masks stay. |
| `PhaseMgr.RecalculateAfterReset` | src/server/game/Maps/PhaseMgr.cpp:70-72 | A reset just before recalculating changes nothing. |
| `PhaseMgr.GetPhaseMaskForSpawn` | src/server/game/Maps/PhaseMgr.cpp:217-221 | The spawn mask is never zero. It holds all three masks and no other bit, or is the normal phase when all three are zero. |
| `PhaseMgr.SpawnMaskIsLeast` | src/server/game/Maps/PhaseMgr.cpp:217-221 | The spawn mask is the least mask that holds all three masks, and the normal phase when they are zero. |
| `PhaseMgr.GetCurrentPhasemask` | src/server/game/Maps/PhaseMgr.cpp:212-215 | A game master sees every phase. Others see the spawn mask, which is always contained in the result. |
| `PhaseMgr.SendDataToPlayer` | src/server/game/Maps/PhaseMgr.cpp:223-235 | The current mask is sent exactly when it differs from the player's mask. |
| `PhaseMgr.NewPhaseUpdateData` | src/server/game/Maps/PhaseMgr.h:89-99 | A fresh notification has no condition-type bit set. |
| `PhaseMgr.AddConditionType` | src/server/game/Maps/PhaseMgr.h:91 | The type's bit is set and every other bit keeps its value. |
| `PhaseMgr.AddQuestUpdate` | src/server/game/Maps/PhaseMgr.cpp:240-248 | The four quest types are set, other types are kept, and the quest id is recorded. |
| `PhaseMgr.IsConditionRelated` | src/server/game/Maps/PhaseMgr.cpp:250-262 | A condition is related when its type's bit is set and, for a quest type, it names the changed quest. `PhaseMgr.QuestUpdateRelatesItsQuest` and `PhaseMgr.NothingRelatedToFreshUpdate` state this. |
| `PhaseMgr.QuestUpdateRelatesItsQuest` | src/server/game/Maps/PhaseMgr.cpp:250-262 | After a quest update, a quest condition is related exactly when it names that quest. Any other condition is related exactly as before. |
| `PhaseMgr.NothingRelatedToFreshUpdate` | src/server/game/Maps/PhaseMgr.cpp:250-262 | No condition is related to an empty notification. |
| `PhaseMgr.IsConditionTypeSupported` | src/server/game/Maps/PhaseMgr.cpp:264-281 | The switch of supported condition types. `PhaseMgr.NineSupportedConditionTypes` proves which types it accepts. |
| `PhaseMgr.NineSupportedConditionTypes` | src/server/game/Maps/PhaseMgr.cpp:264-281 | Exactly nine condition types are supported: the four quest types, team, class, race, instance data and level. |
| `PhaseMgr.NeedsPhaseUpdateWithData` | src/server/game/Maps/PhaseMgr.cpp:105-119 | An update is needed exactly when some condition of some definition of the zone is related. A zone without definitions never needs one. |
| `PhaseMgr.NewPhaseManager` | src/server/game/Maps/PhaseMgr.cpp:25-28 | A new manager has no pending update flag and fresh phase data. |
| `PhaseMgr.SendPhaseDataToPlayer` | src/server/game/Maps/PhaseMgr.cpp:30-37 | Nothing is sent while an update flag is pending. Otherwise the current mask is sent exactly when it is new to the player. |
| `PhaseMgr.PhaseMaskForSpawn` | src/server/game/Maps/PhaseMgr.h:107-108 | The manager's spawn mask is the game-master-aware current mask, not the data's spawn mask. |
| `PhaseMgr.AddUpdateFlag` | src/server/game/Maps/PhaseMgr.h:121 | The flag is set and the other flags and the data are kept. |
| `PhaseMgr.RemoveUpdateFlag` | src/server/game/Maps/PhaseMgr.cpp:39-53 | The flag is cleared and the others are kept. Only a zone update recalculates the data. The data is then sent under the pending-flag rule. |
| `PhaseMgr.AddThenRemoveUpdateFlag` | src/server/game/Maps/PhaseMgr.cpp:39-41 | Setting and then clearing a flag that was not pending restores the flags. |
| `PhaseMgr.PendingFlagsHoldBackSends` | src/server/game/Maps/PhaseMgr.cpp:30-37 | While another flag is pending, clearing a flag sends nothing. |
| `PhaseMgr.NotifyConditionChanged` | src/server/game/Maps/PhaseMgr.cpp:58-65 | An unrelated change does nothing. A related change recalculates and then sends. |
| `PhaseMgr.NotifyStoresReloaded` | src/server/game/Maps/PhaseMgr.h:112 | A reload is exactly a recalculation. Flags, aura mask and custom mask are kept. |
| `PhaseMgr.OrAllBits` | src/server/game/Maps/PhaseMgr.cpp:147-156 | A bit is in the OR of the aura values exactly when some value has it. |
| `PhaseMgr.RegisterPhasingAuraEffect` | src/server/game/Maps/PhaseMgr.cpp:140-145 | The aura value's bits are added and other bits are kept. Then the data is sent. |
| `PhaseMgr.UnRegisterPhasingAuraEffect` | src/server/game/Maps/PhaseMgr.cpp:147-156 | The aura mask is rebuilt from scratch and holds exactly the bits of the remaining auras. Then the data is sent. |
| `PhaseMgr.RegisterThenUnRegister` | src/server/game/Maps/PhaseMgr.cpp:140-156 | Registering the only phase aura and then removing it restores the manager. |
| `PhaseMgr.SetCustomPhase` | src/server/game/Maps/PhaseMgr.cpp:191-196 | The custom mask is replaced. Any mask sent then contains it. |
| `DatabaseLoader.NewLoader` | src/server/database/Database/DatabaseLoader.cpp:23-27 | Auto-setup defaults to true, and the update mask to the caller's mask. A configured int is stored as the uint32 congruent to it, so -1 becomes 2^32-1. All stacks start empty. |
| `DatabaseLoader.AddDatabase` | src/server/database/Database/DatabaseLoader.h:36-121 | One open/close entry and one prepare step are always pushed. Populate and update steps are pushed only when updates are enabled for the database. |
| `DatabaseLoader.WithUpdatesIsOrderedFilter` | src/server/database/Database/DatabaseLoader.h:87-108 | The populate and update registrations form an order-preserving filter of the registered list: a subsequence holding each database with updates as often as the list does, and no other database. |
| `DatabaseLoader.RegistrationStacks` | src/server/database/Database/DatabaseLoader.h:36-121 | After registering a list, open and prepare hold every database, and populate and update hold those with updates. All are in registration order from bottom to top. |
| `DatabaseLoader.AsUint8` | src/server/database/Database/DatabaseLoader.h:49 | The configured int is read as a uint8: below 256 and congruent modulo 256. |
| `DatabaseLoader.OpenStep` | src/server/database/Database/DatabaseLoader.h:40-79 | An empty connection string fails, and so does a truncated thread count outside 1..32. An "unknown database" error is recovered exactly when updates are on, auto-setup is on, the create succeeds and the reopen returns 0. Any other error fails. |
| `DatabaseLoader.WorkerThreadTruncation` | src/server/database/Database/DatabaseLoader.h:49-55 | 257, 288 and -255 worker threads pass the range check after truncation. 0, 33 and 256 fail it. |
| `DatabaseLoader.NoRecoveryWithoutUpdates` | src/server/database/Database/DatabaseLoader.h:60-78 | Without updates or auto-setup, a failed open is never recovered. |
| `DatabaseLoader.TopFailureUnique` | src/server/database/Database/DatabaseLoader.cpp:73-83 | The element a stack walk stops at is uniquely determined. |
| `DatabaseLoader.Process` | src/server/database/Database/DatabaseLoader.cpp:73-83 | The result is true exactly when every predicate holds, and the stack ends empty. On failure the first false element from the top stays on top and nothing below it runs. |
| `DatabaseLoader.OpenDatabases` | src/server/database/Database/DatabaseLoader.cpp:49-70 | On success the open stack is empty and the close stack gains every database. At the first failure every earlier closer runs once, most recent first, and the close stack ends empty. The failing database stays on the open stack and its closer never runs. |
| `DatabaseLoader.Load` | src/server/database/Database/DatabaseLoader.cpp:29-47 | The phases run in the order open, populate, update, prepare. Loading succeeds exactly when all four succeed, and stops at the first failure. A failed open leaves the failing database on the open stack and runs the earlier closers, most recent first. A failed populate, update or prepare phase leaves its failing step on top of its stack, and later stacks untouched. No closer runs after the open phase. |
| `DatabaseLoader.PrepareOrder` | src/server/database/Database/DatabaseLoader.h:152-154 | A phase visits the databases in reverse registration order. |
| `SupportMgr.Ticket.IsClosed` | src/server/game/Support/SupportMgr.h:55 | A ticket is closed when its closer is not empty. `SupportMgr.SetClosedBy` states this for a stored closer. |
| `SupportMgr.Ticket.IsFromPlayer` | src/server/game/Support/SupportMgr.h:56 | The ticket's player is the given GUID. `SupportMgr.ComplaintListedForItsPlayerOnly` relies on it. |
| `SupportMgr.Ticket.IsAssigned` | src/server/game/Support/SupportMgr.h:57 | The assignee is not empty. `SupportMgr.SetAssignedTo` and `SupportMgr.SetUnassigned` state this. |
| `SupportMgr.Ticket.IsAssignedTo` | src/server/game/Support/SupportMgr.h:58 | The assignee is the given GUID. `SupportMgr.SetAssignedTo` states this. |
| `SupportMgr.Ticket.IsAssignedNotTo` | src/server/game/Support/SupportMgr.h:59 | Assigned, but not to the given GUID. `SupportMgr.AssignedNotToExcludesAssignedTo` proves it is the complement of "assigned to" on an assigned ticket. |
| `SupportMgr.ByKind.Select` | src/server/game/Support/SupportMgr.h:205-236 | The per-kind container selection: the bug, complaint or suggestion argument for the matching kind. |
| `SupportMgr.SetAssignedTo` | src/server/game/Support/SupportMgr.h:84 | The ticket is assigned to the GUID, and is assigned at all exactly when the GUID is not empty. It is "assigned not to" exactly the other GUIDs. |
| `SupportMgr.SetUnassigned` | src/server/game/Support/SupportMgr.h:85 | Afterwards the ticket is unassigned and not "assigned not to" anyone. |
| `SupportMgr.SetClosedBy` | src/server/game/Support/SupportMgr.h:86 | The closer is stored, and the ticket is closed exactly when it is not empty. Nothing else changes. |
| `SupportMgr.SetComment` | src/server/game/Support/SupportMgr.h:87 | Only the comment changes. |
| `SupportMgr.AssignThenUnassign` | src/server/game/Support/SupportMgr.h:84-85 | Assigning and then unassigning equals unassigning. |
| `SupportMgr.AssignedNotToExcludesAssignedTo` | src/server/game/Support/SupportMgr.h:55-59 | For an assigned ticket, "assigned to g" and "assigned not to g" are complementary. |
| `SupportMgr.GetSupportSystemStatus` | src/server/game/Support/SupportMgr.h:274 | The support switch itself. `SupportMgr.SupportSwitchGatesEverySubsystem` states how it gates the subsystems. |
| `SupportMgr.GetSystemStatus` | src/server/game/Support/SupportMgr.h:274-278 | A subsystem is on exactly when support and its own switch are both on. |
| `SupportMgr.SetSupportSystemStatus` | src/server/game/Support/SupportMgr.h:287 | Only the support switch changes. |
| `SupportMgr.SetSystemStatus` | src/server/game/Support/SupportMgr.h:288-291 | Only that subsystem's own switch changes. |
| `SupportMgr.SupportSwitchGatesEverySubsystem` | src/server/game/Support/SupportMgr.h:274-291 | With support off, every subsystem is off. With support on, each follows its own switch. |
| `SupportMgr.UpdateLastChange` | src/server/game/Support/SupportMgr.h:335 | The time stamp is stored as a uint64, and only it changes. |
| `SupportMgr.GenerateId` | src/server/game/Support/SupportMgr.h:337-339 | The new id is the counter plus one modulo 2^32, and is stored as the counter. Other kinds' counters do not move. |
| `SupportMgr.GeneratedIdsAreConsecutive` | src/server/game/Support/SupportMgr.h:337-339 | The i-th of n ids generated in a row is the starting counter plus i+1, modulo 2^32. |
| `SupportMgr.GeneratedIdsDistinct` | src/server/game/Support/SupportMgr.h:337-339 | Up to 2^32 ids generated in a row are pairwise distinct. |
| `SupportMgr.GetComplaintsByPlayerGuid` | src/server/game/Support/SupportMgr.h:262-270 | The result holds exactly the complaints of that player, under the same ids. |
| `SupportMgr.ComplaintListedForItsPlayerOnly` | src/server/game/Support/SupportMgr.h:262-270 | Every complaint is listed for its own player and for no other. |
| `SupportMgr.GetOpenTicketCount` | src/server/game/Support/SupportMgr.h:281-285 | The counter is selected by ticket kind: bug, complaint or suggestion. |
| `SupportMgr.CloseTicket` | src/server/game/Support/SupportMgr.h:311-321 | An unknown id changes nothing. A known ticket records its closer. A non-empty closer decrements that kind's counter with uint32 wrap. Other kinds are untouched. |
| `SupportMgr.CloseOpenTicketKeepsCount` | src/server/game/Support/SupportMgr.h:311-321 | Closing an open ticket keeps the counter equal to the number of open tickets. |
| `SupportMgr.CloseClosedTicketBreaksCount` | src/server/game/Support/SupportMgr.h:311-321 | Closing an already closed ticket makes the counter disagree with the open tickets. |
| `SupportMgr.ShowList` | src/server/game/Support/SupportMgr.h:366-391 | The open listing shows exactly the open tickets of the kind. |
| `SupportMgr.ShowClosedList` | src/server/game/Support/SupportMgr.h:393-418 | The closed listing shows exactly the closed tickets of the kind. |
| `SupportMgr.ListsPartitionTickets` | src/server/game/Support/SupportMgr.h:366-418 | The two listings are disjoint, together cover every ticket, and their sizes add up. |
| `SupportMgr.CloseMovesBetweenLists` | src/server/game/Support/SupportMgr.h:311-321 | Closing a listed open ticket moves it from the open listing to the closed one. |

## Left out

- **`Initialize`** (ScriptReloadMgr.cpp:348-383): the directory checks, cache-directory creation and configuration lookups are file-system I/O. The start-up scan it calls is modelled.
- **`InitializeFileWatchers`**, the efsw watcher threads, mutexes and atomics (ScriptReloadMgr.cpp:263-301, 453-471, 811-830): watcher callbacks are modelled as sequential inputs.
- **`Unload`** (ScriptReloadMgr.cpp:391-405): it removes watches and blocks on the build job.
- **`wait_for` and the blocking future destructor**: a job's state is an input, and an install job runs to completion within the call.
- **The OS loader and symbol lookup, the cmake/boost::process invocations and `fs::copy_file`**: these are outcomes given per path or per job.
- **ScriptMgr script contexts**: `BeginScriptContext` and `ReleaseScriptContext` are not modelled.
- **`std::regex`**: the recognisers are explicit character predicates.
- **The millisecond clock**: `getMSTime` wrap-around is not modelled. The clock is an explicit `now` that does not go backwards.
- **The clock within a tick**: one `now` serves the whole tick, so time does not pass during the blocking job wait (ScriptReloadMgr.cpp:656), the blocking install (line 727) or anything else in the tick. The source reads the clock again for the hold-back tests at lines 731 and 488-489, after those waits. When a wait pushes a compile request past the one-second hold-back, the source starts the compile but `ScriptReload.DispatchCompileScriptModules` and `ScriptReload.UpdateStartsCompileWhenDue` report no start. The library dispatch can differ in the same way.
- **Absolute paths**: paths are file names relative to the watched directory.
- **The listener wired into the manager**: `ScriptReload.OnLibraryEvent` queues the corrected classification, and `ScriptReload.OnLibraryEventAsWritten` keeps line 846 as written (see Findings).
- **The non-dynamic-linking build** (ScriptReloadMgr.cpp:20-27) and the `ScriptReloadMgr` interface header: they only provide empty default methods.
- **`SendDebugReportToPlayer`** (PhaseMgr.cpp:161-189): it only formats chat output.
- **ConditionMgr evaluation, the ObjectMgr terrain-swap lookup and the player's aura list**: these are parameters.
- **`UpdateObjectVisibility`**: a send is reported as the mask sent.
- **Condition-type codes 32 and above**: the type is limited to codes below 32, where `1 << type` fits the 32-bit word.
- **Condition-type constants**: their values follow TrinityCore's ConditionMgr, which is not part of this model.
- **Uninitialised fields**: `_UpdateFlags` and the fields of `PhaseUpdateData` are never initialised by the original code. Zero is assumed.
- **`GetMiscValue`**: an aura value is taken as a mask. Its int32-to-uint32 conversion is not modelled.
- **The internals of `DBUpdater<T>` and `DatabaseWorkerPool`** (`IsEnabled`, `Create`, `Populate`, `Update`, `Open`, `PrepareStatements`) and the configuration lookups: these are given per database. `DBUpdater<T>::IsEnabled` is not part of this model, so `AddDatabase` takes its result.
- **The `DatabaseTypeFlags` values** (DatabaseLoader.h:126-136): they are only read by `DBUpdater<T>::IsEnabled`, whose answer is an input here.
- **`SetConnectionInfo` and the synchronous-thread count**: they have no effect on the outcome.
- **Logging**: this includes the "updates disabled" message in `Load`.
- **The older loader** in `src/server/shared/Database/DatabaseLoader.{h,cpp}`: several of its functions fall off the end without returning a value, so its behaviour is undefined.
- **`SupportMgr` database load/save/delete, chat formatting, `TeleportTo`, positions, facing, chat logs and complaint-only fields**: SupportMgr.cpp, where `AddTicket`, `ResetTickets` and `Initialize` live, is not part of this model.
- **`RemoveTicket`** (SupportMgr.h:301-309): it deletes the ticket but leaves a dangling map entry.
- **`GetTicket`** (SupportMgr.h:251-260): it refers to an undeclared name, so lookup is plain map access.
- **The iteration order of the ticket listings**: it is not modelled. The listings are sets of ids.
- **The two-argument `ShowList(handler, onlineOnly)`**: it is only declared.

## Findings

| source | as written | input that shows it | evidently intended | confidence | as-written member | corrected member |
|---|---|---|---|---|---|---|
| src/server/game/Scripting/ScriptReloadMgr.cpp:846 | On a rename from a script-library name to a non-library name, the unload is queued for the NEW (non-library) path | rename `libscripts_foo.so` → `foo.txt` on posix while `libscripts_foo.so` is loaded: `foo.txt` is unloaded (a no-op) and the module stays loaded | unload the OLD path, `oldFilename`, which is the library that disappeared | not executed | `ScriptEvents.ClassifyLibraryEventAsWritten` | `ScriptEvents.ClassifyLibraryEvent` |
