/**
 * The per-player phase-mask calculator.
 *
 * A player's phase mask is the OR of three 32-bit masks: one folded from the
 * zone's ordered phasing definitions, one from phase auras and one set by a
 * command; an all-zero result means the normal phase. Definitions add,
 * remove or overwrite bits and may stop the fold. Condition evaluation,
 * terrain-swap lookup and the player object are passed in.
 *
 * Every bit word of the original (the uint32 masks, the uint8 flag bytes,
 * the condition-type word) is modelled as the set of its set bit positions:
 * `|` is union, `&` intersection, `& ~m` difference, zero the empty set.
 */
module PhaseMgr {
  import opened Wrappers

  /** A bit position of a uint32 word. */
  type Bit = b: nat | b < 32

  /** A uint32 phase mask, as the set of its set bits. */
  type Mask = set<Bit>

  /** The mask with every bit set (0xFFFFFFFF). */
  const AllBits: Mask := set b: Bit | 0 <= b < 32

  /** The normal phase, 0x00000001. */
  const PhasemaskNormal: Mask := {0}

  /** Every phase, 0xFFFFFFFF: what a game master sees. */
  const PhasemaskAnywhere: Mask := AllBits

  /** Flags of a phasing definition (bits of a uint8). */
  datatype PhasingFlag = OverwriteExisting | NoMorePhases | NegatePhase

  /** The delayed-update flags a manager may hold (bits of a uint8). */
  datatype PhaseUpdateFlag = ZoneUpdate | AreaUpdate | StoreUpdate

  // Phase flags from the phase store.
  const PhaseFlagNoTerrainSwap: nat := 0x0
  const PhaseFlagTerrainSwap: nat := 0x4
  const PhaseFlagNormalPhase: nat := 0x8

  /** One row of the phasing definition store; ids are uint32 values used only for lookup and comparison. */
  datatype PhasingDefinition = PhasingDefinition(
    zoneId: nat, entry: nat, phasemask: Mask, phaseId: nat, terrainSwapMap: nat, flags: set<PhasingFlag>)

  predicate IsOverwritingExistingPhases(d: PhasingDefinition)
  {
    OverwriteExisting in d.flags
  }

  predicate IsLastDefinition(d: PhasingDefinition)
  {
    NoMorePhases in d.flags
  }

  predicate IsNegatingPhasemask(d: PhasingDefinition)
  {
    NegatePhase in d.flags
  }

  /** A terrain swap found for a phase id in a zone. */
  datatype TerrainSwap = TerrainSwap(mapId: nat, phaseId: nat)

  /** The phase state of one player. */
  datatype PhaseData = PhaseData(
    definitionsMask: Mask,
    aurasMask: Mask,
    customMask: Mask,
    flag: nat,
    terrainSwap: nat,
    phaseId: nat)

  /** Clears what the definitions produced; aura and custom masks stay. */
  function Reset(d: PhaseData): (r: PhaseData)
    ensures r.definitionsMask == {} && r.terrainSwap == 0 && r.phaseId == 0 && r.flag == PhaseFlagNormalPhase
    ensures r.aurasMask == d.aurasMask && r.customMask == d.customMask
  {
    d.(definitionsMask := {}, terrainSwap := 0, phaseId := 0, flag := PhaseFlagNormalPhase)
  }

  /** A fresh player's phase data: aura and custom masks 0, then reset. */
  function NewPhaseData(): (r: PhaseData)
    ensures r == Reset(r)
    ensures r.aurasMask == {} && r.customMask == {}
  {
    Reset(PhaseData({}, {}, {}, 0, 0, 0))
  }

  /** Resetting twice is resetting once, and the reset depends only on the aura and custom masks. */
  lemma ResetIdempotent(d: PhaseData, e: PhaseData)
    ensures Reset(Reset(d)) == Reset(d)
    ensures d.aurasMask == e.aurasMask && d.customMask == e.customMask ==> Reset(d) == Reset(e)
  {
  }

  /** Takes the map and phase id of a terrain swap; the masks and the flag stay. */
  function UseTerrainSwap(d: PhaseData, ts: TerrainSwap): (r: PhaseData)
    ensures r.terrainSwap == ts.mapId && r.phaseId == ts.phaseId
    ensures r.(terrainSwap := d.terrainSwap, phaseId := d.phaseId) == d
  {
    d.(terrainSwap := ts.mapId, phaseId := ts.phaseId)
  }

  /**
   * Applies one definition to the definitions mask: overwrite replaces the
   * mask (and wins over negate), negate clears the definition's bits, and
   * otherwise its bits are set; unless overwritten, bits outside the
   * definition's mask keep their value. A normal-phase flag becomes
   * no-terrain-swap.
   */
  function AddPhasingDefinitionToPhase(d: PhaseData, def: PhasingDefinition): (r: PhaseData)
    ensures IsOverwritingExistingPhases(def) ==> r.definitionsMask == def.phasemask
    ensures !IsOverwritingExistingPhases(def) ==>
              forall b :: b !in def.phasemask ==> (b in r.definitionsMask <==> b in d.definitionsMask)
    ensures !IsOverwritingExistingPhases(def) && IsNegatingPhasemask(def) ==>
              forall b :: b in def.phasemask ==> b !in r.definitionsMask
    ensures !IsOverwritingExistingPhases(def) && !IsNegatingPhasemask(def) ==> def.phasemask <= r.definitionsMask
    ensures r.flag == (if d.flag == PhaseFlagNormalPhase then PhaseFlagNoTerrainSwap else d.flag)
    ensures r == d.(definitionsMask := r.definitionsMask, flag := r.flag)
  {
    var mask :=
      if IsOverwritingExistingPhases(def) then def.phasemask
      else if IsNegatingPhasemask(def) then d.definitionsMask - def.phasemask
      else d.definitionsMask + def.phasemask;
    d.(definitionsMask := mask, flag := if d.flag == PhaseFlagNormalPhase then PhaseFlagNoTerrainSwap else d.flag)
  }

  // ---------------------------------------------------------------------
  // Folding the zone's definitions

  /** The phase data and the phase id of the definition applied last. */
  datatype FoldState = FoldState(data: PhaseData, phaseId: nat)

  /** The fold state after applying one definition. */
  function Step(s: FoldState, def: PhasingDefinition): FoldState
  {
    FoldState(AddPhasingDefinitionToPhase(s.data, def), def.phaseId)
  }

  /**
   * Walks the definitions in order: a definition whose conditions fail is
   * skipped; a passing one is applied and becomes the current phase id; the
   * walk stops after the first passing definition marked as the last one.
   */
  function FoldDefinitions(s: FoldState, defs: seq<PhasingDefinition>, check: PhasingDefinition -> bool): FoldState
    decreases |defs|
  {
    if defs == [] then s
    else if !check(defs[0]) then FoldDefinitions(s, defs[1..], check)
    else if IsLastDefinition(defs[0]) then Step(s, defs[0])
    else FoldDefinitions(Step(s, defs[0]), defs[1..], check)
  }

  /**
   * The definitions that take effect: the passing ones, up to and including
   * the first passing one marked as the last.
   */
  function Applied(defs: seq<PhasingDefinition>, check: PhasingDefinition -> bool): (r: seq<PhasingDefinition>)
    ensures |r| <= |defs|
    ensures forall i :: 0 <= i < |r| ==> check(r[i]) && r[i] in defs
    ensures forall i :: 0 <= i < |r| - 1 ==> !IsLastDefinition(r[i])
    ensures forall i :: 0 <= i < |defs| && check(defs[i]) && NoStopBefore(defs, check, i) ==> defs[i] in r
  {
    if defs == [] then []
    else if !check(defs[0]) then
      assert forall i :: 1 <= i < |defs| && NoStopBefore(defs, check, i) ==> NoStopBefore(defs[1..], check, i - 1);
      Applied(defs[1..], check)
    else if IsLastDefinition(defs[0]) then [defs[0]]
    else
      assert forall i :: 1 <= i < |defs| && NoStopBefore(defs, check, i) ==> NoStopBefore(defs[1..], check, i - 1);
      [defs[0]] + Applied(defs[1..], check)
  }

  /** No passing definition marked as the last one comes before position `i`. */
  predicate NoStopBefore(defs: seq<PhasingDefinition>, check: PhasingDefinition -> bool, i: nat)
    requires i <= |defs|
  {
    forall j :: 0 <= j < i ==> !(check(defs[j]) && IsLastDefinition(defs[j]))
  }

  /** The passing definitions of a list, in order. */
  function Passing(defs: seq<PhasingDefinition>, check: PhasingDefinition -> bool): seq<PhasingDefinition>
  {
    if defs == [] then [] else (if check(defs[0]) then [defs[0]] else []) + Passing(defs[1..], check)
  }

  /**
   * The definitions that take effect are the passing ones in order: all of
   * them when none is marked as the last, otherwise those up to and
   * including the first passing one so marked.
   */
  lemma {:induction false} AppliedIsPassingPrefix(defs: seq<PhasingDefinition>, check: PhasingDefinition -> bool, k: nat)
    decreases |defs|
    requires k <= |defs| && NoStopBefore(defs, check, k)
    requires k < |defs| ==> check(defs[k]) && IsLastDefinition(defs[k])
    ensures k == |defs| ==> Applied(defs, check) == Passing(defs, check)
    ensures k < |defs| ==> Applied(defs, check) == Passing(defs[..k + 1], check)
  {
    if defs != [] {
      if k == 0 {
        assert defs[..1] == [defs[0]];
        assert Passing([defs[0]], check) == [defs[0]] + Passing([], check);
      } else {
        assert NoStopBefore(defs[1..], check, k - 1);
        AppliedIsPassingPrefix(defs[1..], check, k - 1);
        assert !(check(defs[0]) && IsLastDefinition(defs[0]));
        if k < |defs| {
          assert defs[..k + 1][0] == defs[0];
          assert defs[..k + 1][1..] == defs[1..][..k];
        }
      }
    }
  }

  /** Applies every definition of a list unconditionally. */
  function ApplyAll(s: FoldState, defs: seq<PhasingDefinition>): FoldState
    decreases |defs|
  {
    if defs == [] then s else ApplyAll(Step(s, defs[0]), defs[1..])
  }

  /** The fold is exactly the unconditional application of the definitions that take effect. */
  lemma {:induction false} FoldAppliesExactlyApplied(s: FoldState, defs: seq<PhasingDefinition>, check: PhasingDefinition -> bool)
    decreases |defs|
    ensures FoldDefinitions(s, defs, check) == ApplyAll(s, Applied(defs, check))
  {
    if defs != [] {
      if !check(defs[0]) {
        FoldAppliesExactlyApplied(s, defs[1..], check);
      } else if IsLastDefinition(defs[0]) {
        assert Applied(defs, check) == [defs[0]];
        assert [defs[0]][1..] == [];
      } else {
        FoldAppliesExactlyApplied(Step(s, defs[0]), defs[1..], check);
        assert ([defs[0]] + Applied(defs[1..], check))[1..] == Applied(defs[1..], check);
      }
    }
  }

  lemma {:induction false} ApplyAllPhaseId(s: FoldState, defs: seq<PhasingDefinition>)
    decreases |defs|
    ensures ApplyAll(s, defs).phaseId == (if defs == [] then s.phaseId else defs[|defs| - 1].phaseId)
  {
    if defs != [] {
      ApplyAllPhaseId(Step(s, defs[0]), defs[1..]);
    }
  }

  /** The resulting phase id is that of the last applied definition, or unchanged when none applies. */
  lemma FoldPhaseIdIsLastApplied(s: FoldState, defs: seq<PhasingDefinition>, check: PhasingDefinition -> bool)
    ensures var a := Applied(defs, check);
            FoldDefinitions(s, defs, check).phaseId == (if a == [] then s.phaseId else a[|a| - 1].phaseId)
  {
    FoldAppliesExactlyApplied(s, defs, check);
    ApplyAllPhaseId(s, Applied(defs, check));
  }

  /** Definitions whose conditions fail never influence the result, wherever they appear. */
  lemma {:induction false} FailingDefinitionsAreIgnored(s: FoldState, defs: seq<PhasingDefinition>, check: PhasingDefinition -> bool, i: nat)
    decreases |defs|
    requires i < |defs| && !check(defs[i])
    ensures FoldDefinitions(s, defs, check) == FoldDefinitions(s, defs[..i] + defs[i + 1..], check)
  {
    if i == 0 {
      assert defs[..0] + defs[1..] == defs[1..];
    } else {
      var rest := defs[..i] + defs[i + 1..];
      assert rest[0] == defs[0];
      assert rest[1..] == defs[1..][..i - 1] + defs[1..][i..];
      if !check(defs[0]) {
        FailingDefinitionsAreIgnored(s, defs[1..], check, i - 1);
      } else if !IsLastDefinition(defs[0]) {
        FailingDefinitionsAreIgnored(Step(s, defs[0]), defs[1..], check, i - 1);
      }
    }
  }

  /** Everything after the first passing last definition is irrelevant. */
  lemma {:induction false} FoldStopsAtLastDefinition(s: FoldState, defs: seq<PhasingDefinition>, check: PhasingDefinition -> bool, i: nat)
    decreases |defs|
    requires i < |defs| && check(defs[i]) && IsLastDefinition(defs[i])
    ensures FoldDefinitions(s, defs, check) == FoldDefinitions(s, defs[..i + 1], check)
  {
    if i > 0 {
      assert defs[..i + 1][0] == defs[0];
      assert defs[..i + 1][1..] == defs[1..][..i];
      if !check(defs[0]) {
        FoldStopsAtLastDefinition(s, defs[1..], check, i - 1);
      } else if !IsLastDefinition(defs[0]) {
        FoldStopsAtLastDefinition(Step(s, defs[0]), defs[1..], check, i - 1);
      }
    }
  }

  /** Once an applied definition overwrites, the mask before it no longer matters. */
  lemma {:induction false} OverwriteForgetsEarlierMask(s: FoldState, t: FoldState, defs: seq<PhasingDefinition>)
    decreases |defs|
    requires s.data.(definitionsMask := {}) == t.data.(definitionsMask := {})
    requires exists i :: 0 <= i < |defs| && IsOverwritingExistingPhases(defs[i])
    ensures ApplyAll(s, defs).data.definitionsMask == ApplyAll(t, defs).data.definitionsMask
  {
    var s', t' := Step(s, defs[0]), Step(t, defs[0]);
    if IsOverwritingExistingPhases(defs[0]) {
      assert s'.data == t'.data;
      ApplyAllSameStart(s', t', defs[1..]);
    } else {
      var i :| 0 <= i < |defs| && IsOverwritingExistingPhases(defs[i]);
      assert defs[1..][i - 1] == defs[i];
      OverwriteForgetsEarlierMask(s', t', defs[1..]);
    }
  }

  lemma {:induction false} ApplyAllSameStart(s: FoldState, t: FoldState, defs: seq<PhasingDefinition>)
    decreases |defs|
    requires s.data == t.data
    ensures ApplyAll(s, defs).data == ApplyAll(t, defs).data
  {
    if defs != [] {
      ApplyAllSameStart(Step(s, defs[0]), Step(t, defs[0]), defs[1..]);
    }
  }

  /** With an overwriting definition among those applied, the fold's mask is independent of the starting mask. */
  lemma RecalculateAfterOverwrite(s: FoldState, t: FoldState, defs: seq<PhasingDefinition>, check: PhasingDefinition -> bool)
    requires s.data.(definitionsMask := {}) == t.data.(definitionsMask := {})
    requires exists i :: 0 <= i < |Applied(defs, check)| && IsOverwritingExistingPhases(Applied(defs, check)[i])
    ensures FoldDefinitions(s, defs, check).data.definitionsMask == FoldDefinitions(t, defs, check).data.definitionsMask
  {
    FoldAppliesExactlyApplied(s, defs, check);
    FoldAppliesExactlyApplied(t, defs, check);
    OverwriteForgetsEarlierMask(s, t, Applied(defs, check));
  }

  /** Starting from a normal-phase flag, the flag says whether any definition was applied. */
  lemma {:induction false} ApplyAllFlag(s: FoldState, defs: seq<PhasingDefinition>)
    requires s.data.flag == PhaseFlagNormalPhase
    ensures ApplyAll(s, defs).data.flag == (if defs == [] then PhaseFlagNormalPhase else PhaseFlagNoTerrainSwap)
  {
    if defs != [] {
      ApplyAllKeepsNoTerrainSwap(Step(s, defs[0]), defs[1..]);
    }
  }

  lemma {:induction false} ApplyAllKeepsNoTerrainSwap(s: FoldState, defs: seq<PhasingDefinition>)
    decreases |defs|
    requires s.data.flag == PhaseFlagNoTerrainSwap
    ensures ApplyAll(s, defs).data.flag == PhaseFlagNoTerrainSwap
  {
    if defs != [] {
      ApplyAllKeepsNoTerrainSwap(Step(s, defs[0]), defs[1..]);
    }
  }

  /** The fold touches only the definitions mask and the flag of the phase data. */
  lemma {:induction false} ApplyAllKeepsOtherFields(s: FoldState, defs: seq<PhasingDefinition>)
    decreases |defs|
    ensures var d := ApplyAll(s, defs).data;
            d.aurasMask == s.data.aurasMask && d.customMask == s.data.customMask
            && d.terrainSwap == s.data.terrainSwap && d.phaseId == s.data.phaseId
  {
    if defs != [] {
      ApplyAllKeepsOtherFields(Step(s, defs[0]), defs[1..]);
    }
  }

  /**
   * Recomputes the definition part of the phase data for the player's zone:
   * reset, fold the zone's definitions (if the zone has any), and use the
   * terrain swap of the resulting phase id when that id is nonzero and a
   * swap exists.
   */
  function Recalculate(d: PhaseData, zoneDefs: Option<seq<PhasingDefinition>>, check: PhasingDefinition -> bool, terrainSwapFor: nat -> Option<TerrainSwap>): (r: PhaseData)
    ensures r.aurasMask == d.aurasMask && r.customMask == d.customMask
    ensures zoneDefs.None? ==> r == Reset(d)
    ensures zoneDefs.Some? ==>
              var a := Applied(zoneDefs.value, check);
              var lastId := if a == [] then 0 else a[|a| - 1].phaseId;
              && r.definitionsMask == ApplyAll(FoldState(Reset(d), 0), a).data.definitionsMask
              && r.flag == (if a == [] then PhaseFlagNormalPhase else PhaseFlagNoTerrainSwap)
              && (lastId == 0 || terrainSwapFor(lastId).None? ==> r.terrainSwap == 0 && r.phaseId == 0)
              && (lastId != 0 && terrainSwapFor(lastId).Some? ==>
                    r.terrainSwap == terrainSwapFor(lastId).value.mapId && r.phaseId == terrainSwapFor(lastId).value.phaseId)
  {
    var reset := Reset(d);
    match zoneDefs
    case None => reset
    case Some(defs) =>
      var start := FoldState(reset, 0);
      var folded := FoldDefinitions(start, defs, check);
      FoldAppliesExactlyApplied(start, defs, check);
      FoldPhaseIdIsLastApplied(start, defs, check);
      ApplyAllFlag(start, Applied(defs, check));
      ApplyAllKeepsOtherFields(start, Applied(defs, check));
      if folded.phaseId != 0 then
        match terrainSwapFor(folded.phaseId)
        case Some(ts) => UseTerrainSwap(folded.data, ts)
        case None => folded.data
      else folded.data
  }

  /** Recalculating starts with a reset, so a reset before it changes nothing. */
  lemma RecalculateAfterReset(d: PhaseData, zoneDefs: Option<seq<PhasingDefinition>>, check: PhasingDefinition -> bool, terrainSwapFor: nat -> Option<TerrainSwap>)
    ensures Recalculate(Reset(d), zoneDefs, check, terrainSwapFor) == Recalculate(d, zoneDefs, check, terrainSwapFor)
  {
    assert Reset(Reset(d)) == Reset(d);
  }

  // ---------------------------------------------------------------------
  // Masks

  /**
   * The mask spawned objects get: every bit of the three masks, or the
   * normal phase when they are all zero; never zero.
   */
  function GetPhaseMaskForSpawn(d: PhaseData): (r: Mask)
    ensures r != {}
    ensures d.definitionsMask <= r && d.aurasMask <= r && d.customMask <= r
    ensures forall b :: b in r ==> b in d.definitionsMask || b in d.aurasMask || b in d.customMask || r == PhasemaskNormal
    ensures d.definitionsMask == {} && d.aurasMask == {} && d.customMask == {} ==> r == PhasemaskNormal
  {
    var phase := d.definitionsMask + d.aurasMask + d.customMask;
    if phase != {} then phase else PhasemaskNormal
  }

  /** The spawn mask is the smallest nonzero mask holding the three masks (and the normal phase if they are zero). */
  lemma SpawnMaskIsLeast(d: PhaseData, m: Mask)
    requires d.definitionsMask <= m && d.aurasMask <= m && d.customMask <= m
    requires d.definitionsMask + d.aurasMask + d.customMask == {} ==> PhasemaskNormal <= m
    ensures GetPhaseMaskForSpawn(d) <= m
  {
  }

  /** The player's current mask: everything for a game master, the spawn mask otherwise. */
  function GetCurrentPhasemask(d: PhaseData, isGameMaster: bool): (r: Mask)
    ensures isGameMaster ==> r == PhasemaskAnywhere
    ensures !isGameMaster ==> r == GetPhaseMaskForSpawn(d)
    ensures GetPhaseMaskForSpawn(d) <= r
  {
    if isGameMaster then PhasemaskAnywhere else GetPhaseMaskForSpawn(d)
  }

  /** What the manager needs to know about its player. */
  datatype PlayerView = PlayerView(zoneId: nat, isGameMaster: bool, phaseMask: Mask)

  /** Sends the current mask to the player, unless the player already has it. */
  function SendDataToPlayer(d: PhaseData, player: PlayerView): (sent: Option<Mask>)
    ensures sent.None? <==> player.phaseMask == GetCurrentPhasemask(d, player.isGameMaster)
    ensures sent.Some? ==> sent.value == GetCurrentPhasemask(d, player.isGameMaster)
  {
    var mask := GetCurrentPhasemask(d, player.isGameMaster);
    if player.phaseMask == mask then None else Some(mask)
  }

  // ---------------------------------------------------------------------
  // Condition-change notifications

  /** A condition type code; every code the notifier meets fits a 32-bit flag word. */
  type ConditionType = t: nat | t < 32

  const ConditionTeam: ConditionType := 6
  const ConditionQuestRewarded: ConditionType := 8
  const ConditionQuestTaken: ConditionType := 9
  const ConditionInstanceData: ConditionType := 13
  const ConditionQuestNone: ConditionType := 14
  const ConditionClass: ConditionType := 15
  const ConditionRace: ConditionType := 16
  const ConditionLevel: ConditionType := 27
  const ConditionQuestComplete: ConditionType := 28

  predicate IsQuestCondition(t: ConditionType)
  {
    t == ConditionQuestRewarded || t == ConditionQuestTaken || t == ConditionQuestComplete || t == ConditionQuestNone
  }

  /** One condition attached to a phasing definition. */
  datatype Condition = Condition(conditionType: ConditionType, value1: nat)

  /** What changed: the condition-type word (bit `1 << type` per changed type) and a quest id. */
  datatype PhaseUpdateData = PhaseUpdateData(conditionTypeFlags: set<ConditionType>, questId: nat)

  /** A fresh notification (its fields are not initialised in the original struct; zero is assumed). */
  function NewPhaseUpdateData(): (r: PhaseUpdateData)
    ensures forall t: ConditionType :: t !in r.conditionTypeFlags
  {
    PhaseUpdateData({}, 0)
  }

  /** Sets the bit of one condition type and no other. */
  function AddConditionType(u: PhaseUpdateData, t: ConditionType): (r: PhaseUpdateData)
    ensures t in r.conditionTypeFlags
    ensures forall v :: v != t ==> (v in r.conditionTypeFlags <==> v in u.conditionTypeFlags)
    ensures r.questId == u.questId
  {
    u.(conditionTypeFlags := u.conditionTypeFlags + {t})
  }

  /** A quest change: the four quest condition types and the quest id. */
  function AddQuestUpdate(u: PhaseUpdateData, questId: nat): (r: PhaseUpdateData)
    ensures r.questId == questId
    ensures forall t: ConditionType :: IsQuestCondition(t) ==> t in r.conditionTypeFlags
    ensures forall t: ConditionType :: !IsQuestCondition(t) ==> (t in r.conditionTypeFlags <==> t in u.conditionTypeFlags)
  {
    var r := AddConditionType(AddConditionType(AddConditionType(AddConditionType(u,
      ConditionQuestRewarded), ConditionQuestTaken), ConditionQuestComplete), ConditionQuestNone);
    r.(questId := questId)
  }

  /**
   * Whether a condition is affected by the change: its type's bit is set,
   * and for the four quest types its first value is the changed quest.
   */
  predicate IsConditionRelated(u: PhaseUpdateData, c: Condition)
  {
    if IsQuestCondition(c.conditionType) then
      c.value1 == u.questId && c.conditionType in u.conditionTypeFlags
    else
      c.conditionType in u.conditionTypeFlags
  }

  /**
   * After a quest update, a quest condition is related exactly when it names
   * that quest, and any other condition exactly when it was before.
   */
  lemma QuestUpdateRelatesItsQuest(u: PhaseUpdateData, questId: nat, c: Condition)
    ensures IsQuestCondition(c.conditionType) ==>
              (IsConditionRelated(AddQuestUpdate(u, questId), c) <==> c.value1 == questId)
    ensures !IsQuestCondition(c.conditionType) ==>
              IsConditionRelated(AddQuestUpdate(u, questId), c) == IsConditionRelated(u, c)
  {
  }

  /** No condition is related to a fresh notification. */
  lemma NothingRelatedToFreshUpdate(c: Condition)
    ensures !IsConditionRelated(NewPhaseUpdateData(), c)
  {
  }

  /** The condition types whose change can trigger a phase update. */
  predicate IsConditionTypeSupported(t: ConditionType)
  {
    IsQuestCondition(t) || t == ConditionTeam || t == ConditionClass || t == ConditionRace
    || t == ConditionInstanceData || t == ConditionLevel
  }

  /** Exactly nine condition types are supported. */
  lemma NineSupportedConditionTypes()
    ensures (set t: ConditionType | IsConditionTypeSupported(t)) ==
            {ConditionQuestRewarded, ConditionQuestTaken, ConditionQuestComplete, ConditionQuestNone,
             ConditionTeam, ConditionClass, ConditionRace, ConditionInstanceData, ConditionLevel}
    ensures |set t: ConditionType | IsConditionTypeSupported(t)| == 9
  {
    var s := set t: ConditionType | IsConditionTypeSupported(t);
    assert s == {8, 9, 28, 14, 6, 15, 16, 13, 27};
  }

  /** Whether any condition of any definition of the zone is related to the change. */
  function NeedsPhaseUpdateWithData(u: PhaseUpdateData, zoneDefs: Option<seq<PhasingDefinition>>, conditionsOf: PhasingDefinition -> seq<Condition>): (r: bool)
    ensures zoneDefs.None? ==> !r
    ensures zoneDefs.Some? ==>
              (r <==> exists i, j :: 0 <= i < |zoneDefs.value| && 0 <= j < |conditionsOf(zoneDefs.value[i])|
                                     && IsConditionRelated(u, conditionsOf(zoneDefs.value[i])[j]))
  {
    match zoneDefs
    case None => false
    case Some(defs) => AnyDefinitionRelated(u, defs, conditionsOf)
  }

  function AnyDefinitionRelated(u: PhaseUpdateData, defs: seq<PhasingDefinition>, conditionsOf: PhasingDefinition -> seq<Condition>): (r: bool)
    ensures r <==> exists i, j :: 0 <= i < |defs| && 0 <= j < |conditionsOf(defs[i])| && IsConditionRelated(u, conditionsOf(defs[i])[j])
  {
    if defs == [] then false
    else if AnyConditionRelated(u, conditionsOf(defs[0])) then
      assert exists j :: 0 <= j < |conditionsOf(defs[0])| && IsConditionRelated(u, conditionsOf(defs[0])[j]);
      true
    else
      var rest := AnyDefinitionRelated(u, defs[1..], conditionsOf);
      assert rest ==> exists i, j :: 0 <= i < |defs| && 0 <= j < |conditionsOf(defs[i])| && IsConditionRelated(u, conditionsOf(defs[i])[j]) by {
        if rest {
          var i, j :| 0 <= i < |defs[1..]| && 0 <= j < |conditionsOf(defs[1..][i])| && IsConditionRelated(u, conditionsOf(defs[1..][i])[j]);
          assert defs[1..][i] == defs[i + 1];
        }
      }
      assert (exists i, j :: 0 <= i < |defs| && 0 <= j < |conditionsOf(defs[i])| && IsConditionRelated(u, conditionsOf(defs[i])[j])) ==> rest by {
        if exists i, j :: 0 <= i < |defs| && 0 <= j < |conditionsOf(defs[i])| && IsConditionRelated(u, conditionsOf(defs[i])[j]) {
          var i, j :| 0 <= i < |defs| && 0 <= j < |conditionsOf(defs[i])| && IsConditionRelated(u, conditionsOf(defs[i])[j]);
          assert i != 0;
          assert defs[1..][i - 1] == defs[i];
        }
      }
      rest
  }

  function AnyConditionRelated(u: PhaseUpdateData, cs: seq<Condition>): (r: bool)
    ensures r <==> exists j :: 0 <= j < |cs| && IsConditionRelated(u, cs[j])
  {
    if cs == [] then false
    else if IsConditionRelated(u, cs[0]) then true
    else
      var rest := AnyConditionRelated(u, cs[1..]);
      assert rest <==> exists j :: 1 <= j < |cs| && IsConditionRelated(u, cs[j]) by {
        assert forall j :: 1 <= j < |cs| ==> cs[1..][j - 1] == cs[j];
      }
      rest
  }

  // ---------------------------------------------------------------------
  // The manager

  /** One player's phase manager: its phase data and its pending update flags. */
  datatype PhaseManager = PhaseManager(data: PhaseData, updateFlags: set<PhaseUpdateFlag>)

  /** A new manager (the update flags are not initialised in the original class; zero is assumed). */
  function NewPhaseManager(): (r: PhaseManager)
    ensures r.updateFlags == {} && r.data == NewPhaseData()
  {
    PhaseManager(NewPhaseData(), {})
  }

  /** The result of an operation: the new manager and the mask sent to the player, if any. */
  datatype PhaseStep = PhaseStep(mgr: PhaseManager, sent: Option<Mask>)

  /** Sends the phase data, but never while a delayed update is pending. */
  function SendPhaseDataToPlayer(mgr: PhaseManager, player: PlayerView): (sent: Option<Mask>)
    ensures mgr.updateFlags != {} ==> sent.None?
    ensures sent.Some? <==> mgr.updateFlags == {} && player.phaseMask != GetCurrentPhasemask(mgr.data, player.isGameMaster)
    ensures sent.Some? ==> sent.value == GetCurrentPhasemask(mgr.data, player.isGameMaster)
  {
    if mgr.updateFlags != {} then None else SendDataToPlayer(mgr.data, player)
  }

  /** The mask spawned objects of this player get: the current, game-master-aware mask. */
  function PhaseMaskForSpawn(mgr: PhaseManager, player: PlayerView): (r: Mask)
    ensures player.isGameMaster ==> r == PhasemaskAnywhere
    ensures !player.isGameMaster ==> r == GetPhaseMaskForSpawn(mgr.data)
  {
    GetCurrentPhasemask(mgr.data, player.isGameMaster)
  }

  /** Sets one delayed-update bit, keeping the others. */
  function AddUpdateFlag(mgr: PhaseManager, flag: PhaseUpdateFlag): (r: PhaseManager)
    ensures flag in r.updateFlags
    ensures forall f :: f != flag ==> (f in r.updateFlags <==> f in mgr.updateFlags)
    ensures r.data == mgr.data
  {
    mgr.(updateFlags := mgr.updateFlags + {flag})
  }

  /**
   * Clears one delayed-update bit. Only the zone-update bit resets the phase
   * data and, when the zone has definitions, recalculates; then the data is
   * sent (which happens only if no other bit is left).
   */
  function RemoveUpdateFlag(mgr: PhaseManager, flag: PhaseUpdateFlag, player: PlayerView, zoneDefs: Option<seq<PhasingDefinition>>,
                            check: PhasingDefinition -> bool, terrainSwapFor: nat -> Option<TerrainSwap>): (r: PhaseStep)
    ensures flag !in r.mgr.updateFlags
    ensures forall f :: f != flag ==> (f in r.mgr.updateFlags <==> f in mgr.updateFlags)
    ensures flag != ZoneUpdate ==> r.mgr.data == mgr.data
    ensures flag == ZoneUpdate ==> r.mgr.data == Recalculate(mgr.data, zoneDefs, check, terrainSwapFor)
    ensures r.sent == SendPhaseDataToPlayer(r.mgr, player)
  {
    var flags := mgr.updateFlags - {flag};
    var data :=
      if flag == ZoneUpdate then
        var reset := Reset(mgr.data);
        if zoneDefs.Some? then Recalculate(reset, zoneDefs, check, terrainSwapFor) else reset
      else mgr.data;
    RecalculateAfterReset(mgr.data, zoneDefs, check, terrainSwapFor);
    var m' := PhaseManager(data, flags);
    PhaseStep(m', SendPhaseDataToPlayer(m', player))
  }

  /** Setting and then clearing a flag that was not pending leaves the flags as they were. */
  lemma AddThenRemoveUpdateFlag(mgr: PhaseManager, flag: PhaseUpdateFlag, player: PlayerView, zoneDefs: Option<seq<PhasingDefinition>>,
                                check: PhasingDefinition -> bool, terrainSwapFor: nat -> Option<TerrainSwap>)
    requires flag !in mgr.updateFlags
    ensures RemoveUpdateFlag(AddUpdateFlag(mgr, flag), flag, player, zoneDefs, check, terrainSwapFor).mgr.updateFlags == mgr.updateFlags
  {
    assert (mgr.updateFlags + {flag}) - {flag} == mgr.updateFlags;
  }

  /** A pending update holds back every send until the last flag is cleared. */
  lemma PendingFlagsHoldBackSends(mgr: PhaseManager, flag: PhaseUpdateFlag, other: PhaseUpdateFlag, player: PlayerView,
                                  zoneDefs: Option<seq<PhasingDefinition>>, check: PhasingDefinition -> bool, terrainSwapFor: nat -> Option<TerrainSwap>)
    requires other != flag && other in mgr.updateFlags
    ensures RemoveUpdateFlag(mgr, flag, player, zoneDefs, check, terrainSwapFor).sent.None?
  {
    var r := RemoveUpdateFlag(mgr, flag, player, zoneDefs, check, terrainSwapFor);
    assert other in r.mgr.updateFlags;
  }

  /** Recalculates the phase and sends it when some zone condition is related to the change. */
  function NotifyConditionChanged(mgr: PhaseManager, u: PhaseUpdateData, player: PlayerView, zoneDefs: Option<seq<PhasingDefinition>>,
                                  conditionsOf: PhasingDefinition -> seq<Condition>,
                                  check: PhasingDefinition -> bool, terrainSwapFor: nat -> Option<TerrainSwap>): (r: PhaseStep)
    ensures !NeedsPhaseUpdateWithData(u, zoneDefs, conditionsOf) ==> r == PhaseStep(mgr, None)
    ensures zoneDefs.None? ==> r == PhaseStep(mgr, None)
    ensures NeedsPhaseUpdateWithData(u, zoneDefs, conditionsOf) ==>
              r.mgr == mgr.(data := Recalculate(mgr.data, zoneDefs, check, terrainSwapFor))
              && r.sent == SendPhaseDataToPlayer(r.mgr, player)
  {
    if NeedsPhaseUpdateWithData(u, zoneDefs, conditionsOf) then
      var m' := mgr.(data := Recalculate(mgr.data, zoneDefs, check, terrainSwapFor));
      PhaseStep(m', SendPhaseDataToPlayer(m', player))
    else PhaseStep(mgr, None)
  }

  /** After the stores are reloaded the phase is recalculated (nothing is sent). */
  function NotifyStoresReloaded(mgr: PhaseManager, zoneDefs: Option<seq<PhasingDefinition>>,
                                check: PhasingDefinition -> bool, terrainSwapFor: nat -> Option<TerrainSwap>): (r: PhaseManager)
    ensures r.updateFlags == mgr.updateFlags
    ensures r.data.aurasMask == mgr.data.aurasMask && r.data.customMask == mgr.data.customMask
    ensures r.data == Recalculate(mgr.data, zoneDefs, check, terrainSwapFor)
  {
    mgr.(data := Recalculate(mgr.data, zoneDefs, check, terrainSwapFor))
  }

  /** The OR of a list of aura values. */
  function OrAll(values: seq<Mask>): Mask
  {
    if values == [] then {} else values[0] + OrAll(values[1..])
  }

  /** The OR holds exactly the bits that some value holds. */
  lemma {:induction false} OrAllBits(values: seq<Mask>, b: Bit)
    ensures b in OrAll(values) <==> exists i :: 0 <= i < |values| && b in values[i]
  {
    if values != [] {
      OrAllBits(values[1..], b);
      if exists i :: 0 <= i < |values[1..]| && b in values[1..][i] {
        var i :| 0 <= i < |values[1..]| && b in values[1..][i];
        assert values[1..][i] == values[i + 1];
      }
      if exists i :: 1 <= i < |values| && b in values[i] {
        var i :| 1 <= i < |values| && b in values[i];
        assert values[1..][i - 1] == values[i];
      }
    }
  }

  /** A phase aura's value is added to the aura mask, then the data is sent. */
  function RegisterPhasingAuraEffect(mgr: PhaseManager, miscValue: Mask, player: PlayerView): (r: PhaseStep)
    ensures miscValue <= r.mgr.data.aurasMask
    ensures forall b :: b !in miscValue ==> (b in r.mgr.data.aurasMask <==> b in mgr.data.aurasMask)
    ensures r.mgr == mgr.(data := mgr.data.(aurasMask := r.mgr.data.aurasMask))
    ensures r.sent == SendPhaseDataToPlayer(r.mgr, player)
  {
    var m' := mgr.(data := mgr.data.(aurasMask := mgr.data.aurasMask + miscValue));
    PhaseStep(m', SendPhaseDataToPlayer(m', player))
  }

  /**
   * After an aura is removed the aura mask is rebuilt from the player's
   * remaining phase auras: it holds exactly the bits some remaining aura holds.
   */
  function UnRegisterPhasingAuraEffect(mgr: PhaseManager, remainingAuraValues: seq<Mask>, player: PlayerView): (r: PhaseStep)
    ensures forall b: Bit :: b in r.mgr.data.aurasMask <==> exists i :: 0 <= i < |remainingAuraValues| && b in remainingAuraValues[i]
    ensures r.mgr == mgr.(data := mgr.data.(aurasMask := r.mgr.data.aurasMask))
    ensures r.sent == SendPhaseDataToPlayer(r.mgr, player)
  {
    var m' := mgr.(data := mgr.data.(aurasMask := OrAll(remainingAuraValues)));
    forall b: Bit
      ensures b in OrAll(remainingAuraValues) <==> exists i :: 0 <= i < |remainingAuraValues| && b in remainingAuraValues[i]
    {
      OrAllBits(remainingAuraValues, b);
    }
    PhaseStep(m', SendPhaseDataToPlayer(m', player))
  }

  /** Registering a player's only phase aura and then removing it restores the aura-free manager. */
  lemma RegisterThenUnRegister(mgr: PhaseManager, miscValue: Mask, player: PlayerView)
    requires mgr.data.aurasMask == {}
    ensures UnRegisterPhasingAuraEffect(RegisterPhasingAuraEffect(mgr, miscValue, player).mgr, [], player).mgr == mgr
  {
    var r := UnRegisterPhasingAuraEffect(RegisterPhasingAuraEffect(mgr, miscValue, player).mgr, [], player);
    assert r.mgr.data.aurasMask == {};
  }

  /** The phase command's mask replaces the custom mask, then the data is sent. */
  function SetCustomPhase(mgr: PhaseManager, phaseMask: Mask, player: PlayerView): (r: PhaseStep)
    ensures r.mgr.data.customMask == phaseMask
    ensures r.mgr == mgr.(data := mgr.data.(customMask := phaseMask))
    ensures r.sent == SendPhaseDataToPlayer(r.mgr, player)
    ensures r.sent.Some? ==> phaseMask <= r.sent.value
  {
    var m' := mgr.(data := mgr.data.(customMask := phaseMask));
    PhaseStep(m', SendPhaseDataToPlayer(m', player))
  }
}
