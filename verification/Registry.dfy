/**
 The three-slot model registry (crates/unimatrix-learn/src/registry.rs): a shadow
 version is promoted to production, production moves to previous, and a rollback
 reverses the move. Writing the registry file may fail; the slots change regardless.
 */
module Registry {
  import opened Prelude

  datatype ModelSlot = Production | Shadow | Previous

  datatype ModelVersion = ModelVersion(
    generation: nat, timestamp: nat, accuracy: Option<real>, schemaVersion: nat, slot: ModelSlot)

  datatype RegistryError = NoShadowModel | NoProductionModel | NoPreviousModel | Io

  datatype ModelSlots = ModelSlots(
    production: Option<ModelVersion>, shadow: Option<ModelVersion>, previous: Option<ModelVersion>)

  const EMPTY_SLOTS := ModelSlots(None, None, None)

  /** What an operation leaves in the slots, and the missing slot it stopped at. */
  datatype Outcome = Outcome(slots: ModelSlots, missing: Option<RegistryError>)

  /** What the caller is told: the missing slot, or else whether the registry file was written. */
  function Reported(o: Outcome, written: bool): Option<RegistryError> {
    if o.missing.Some? then o.missing else if written then None else Some(Io)
  }

  function Moved(v: ModelVersion, slot: ModelSlot): ModelVersion {
    v.(slot := slot)
  }

  function WithShadow(s: ModelSlots, generation: nat, schemaVersion: nat, now: nat): ModelSlots {
    s.(shadow := Some(ModelVersion(generation, now, None, schemaVersion, Shadow)))
  }

  function Promoted(s: ModelSlots): Outcome {
    if s.shadow.None? then Outcome(s, Some(NoShadowModel))
    else
      var previous := if s.production.Some? then Some(Moved(s.production.value, Previous)) else None;
      Outcome(ModelSlots(Some(Moved(s.shadow.value, Production)), None, previous), None)
  }

  /** The previous version is taken out before production is looked at. */
  function RolledBack(s: ModelSlots): Outcome {
    if s.previous.None? then Outcome(s, Some(NoPreviousModel))
    else if s.production.None? then Outcome(s.(previous := None), Some(NoProductionModel))
    else Outcome(ModelSlots(Some(Moved(s.previous.value, Production)), Some(Moved(s.production.value, Shadow)), None), None)
  }

  function Rated(s: ModelSlots, slot: ModelSlot, accuracy: real): ModelSlots {
    match slot
    case Production => if s.production.Some? then s.(production := Some(s.production.value.(accuracy := Some(accuracy)))) else s
    case Shadow => if s.shadow.Some? then s.(shadow := Some(s.shadow.value.(accuracy := Some(accuracy)))) else s
    case Previous => if s.previous.Some? then s.(previous := Some(s.previous.value.(accuracy := Some(accuracy)))) else s
  }

  /** A version, with the accuracy if it is the one meant; everything else about it stays. */
  function RatedIf(v: Option<ModelVersion>, meant: bool, accuracy: real): Option<ModelVersion> {
    if v.Some? && meant
    then Some(ModelVersion(v.value.generation, v.value.timestamp, Some(accuracy), v.value.schemaVersion, v.value.slot))
    else v
  }

  /** The trainer's rule: one past the shadow, else one past production, else 1. */
  function NextGeneration(s: ModelSlots): nat {
    if s.shadow.Some? then s.shadow.value.generation + 1
    else if s.production.Some? then s.production.value.generation + 1
    else 1
  }

  /** Tags name their slots, previous needs production, and generations grow from previous to shadow. */
  ghost predicate SlotsOk(s: ModelSlots) {
    && (s.production.Some? ==> s.production.value.slot == Production)
    && (s.shadow.Some? ==> s.shadow.value.slot == Shadow)
    && (s.previous.Some? ==> s.previous.value.slot == Previous)
    && (s.previous.Some? ==> s.production.Some?)
    && (s.previous.Some? ==> s.previous.value.generation < s.production.value.generation)
    && (s.production.Some? && s.shadow.Some? ==> s.production.value.generation < s.shadow.value.generation)
  }

  class ModelRegistry {
    var models: map<string, ModelSlots>

    constructor (models: map<string, ModelSlots>)
      ensures this.models == models
    {
      this.models := models;
    }

    method Persist(written: bool) returns (r: Option<RegistryError>)
      ensures r == if written then None else Some(Io)
    {
      r := if written then None else Some(Io);
    }

    method RegisterShadow(name: string, generation: nat, schemaVersion: nat, now: nat, written: bool)
      returns (error: Option<RegistryError>)
      modifies this
      ensures models == old(models)[name := WithShadow(SlotsOf(old(models), name), generation, schemaVersion, now)]
      ensures error == if written then None else Some(Io)
      ensures var before := SlotsOf(old(models), name);
              && name in models
              && models[name].shadow == Some(ModelVersion(generation, now, None, schemaVersion, Shadow))
              && models[name].production == before.production && models[name].previous == before.previous
      ensures forall m :: m != name ==> (m in models <==> m in old(models)) && (m in models ==> models[m] == old(models)[m])
    {
      var slots := if name in models then models[name] else EMPTY_SLOTS;
      slots := slots.(shadow := Some(ModelVersion(generation, now, None, schemaVersion, Shadow)));
      models := models[name := slots];
      error := Persist(written);
    }

    method Promote(name: string, written: bool) returns (error: Option<RegistryError>)
      modifies this
      ensures name !in old(models) ==> models == old(models) && error == Some(NoShadowModel)
      ensures name in old(models) ==>
                var o := Promoted(old(models)[name]);
                && models == old(models)[name := o.slots]
                && error == Reported(o, written)
      ensures error.Some? ==> (models == old(models) <==> error != Some(Io))
      ensures (error == Some(NoShadowModel) <==> SlotsOf(old(models), name).shadow.None?)
              && (error.None? <==> SlotsOf(old(models), name).shadow.Some? && written)
      ensures SlotsOf(old(models), name).shadow.Some? ==>
                var before := old(models)[name];
                && name in models
                && models[name].production == Some(before.shadow.value.(slot := Production))
                && models[name].shadow == None
                && models[name].previous ==
                   if before.production.Some? then Some(before.production.value.(slot := Previous)) else None
      ensures forall m :: m != name ==> (m in models <==> m in old(models)) && (m in models ==> models[m] == old(models)[m])
    {
      if name !in models {
        return Some(NoShadowModel);
      }
      var slots := models[name];
      var shadow := slots.shadow;
      slots := slots.(shadow := None);
      models := models[name := slots];
      if shadow.None? {
        return Some(NoShadowModel);
      }
      var current := slots.production;
      slots := slots.(previous := if current.Some? then Some(current.value.(slot := Previous)) else None);
      slots := slots.(production := Some(shadow.value.(slot := Production)));
      models := models[name := slots];
      error := Persist(written);
    }

    method Rollback(name: string, written: bool) returns (error: Option<RegistryError>)
      modifies this
      ensures name !in old(models) ==> models == old(models) && error == Some(NoProductionModel)
      ensures name in old(models) ==>
                var o := RolledBack(old(models)[name]);
                && models == old(models)[name := o.slots]
                && error == Reported(o, written)
      ensures error.Some? ==>
                (models == old(models) <==> error != Some(Io) && !Orphaned(SlotsOf(old(models), name)))
      ensures name in old(models) ==>
                var before := old(models)[name];
                && (error == Some(NoPreviousModel) <==> before.previous.None?)
                && (error == Some(NoProductionModel) <==> before.previous.Some? && before.production.None?)
                && (error.None? <==> before.previous.Some? && before.production.Some? && written)
                && (before.previous.Some? && before.production.Some? ==>
                     && name in models
                     && models[name].production == Some(before.previous.value.(slot := Production))
                     && models[name].shadow == Some(before.production.value.(slot := Shadow))
                     && models[name].previous == None)
      ensures forall m :: m != name ==> (m in models <==> m in old(models)) && (m in models ==> models[m] == old(models)[m])
    {
      if name !in models {
        return Some(NoProductionModel);
      }
      var slots := models[name];
      var previous := slots.previous;
      slots := slots.(previous := None);
      models := models[name := slots];
      if previous.None? {
        return Some(NoPreviousModel);
      }
      var current := slots.production;
      if current.None? {
        return Some(NoProductionModel);
      }
      slots := slots.(shadow := Some(current.value.(slot := Shadow)));
      slots := slots.(production := Some(previous.value.(slot := Production)));
      models := models[name := slots];
      error := Persist(written);
    }

    method UpdateAccuracy(name: string, slot: ModelSlot, accuracy: real, written: bool) returns (error: Option<RegistryError>)
      modifies this
      ensures name !in old(models) ==> models == old(models) && error == Some(NoProductionModel)
      ensures name in old(models) ==>
                && models == old(models)[name := Rated(old(models)[name], slot, accuracy)]
                && error == if written then None else Some(Io)
      ensures name in old(models) ==>
                && name in models
                && models[name].production == RatedIf(old(models)[name].production, slot == Production, accuracy)
                && models[name].shadow == RatedIf(old(models)[name].shadow, slot == Shadow, accuracy)
                && models[name].previous == RatedIf(old(models)[name].previous, slot == Previous, accuracy)
      ensures forall m :: m != name ==> (m in models <==> m in old(models)) && (m in models ==> models[m] == old(models)[m])
    {
      if name !in models {
        return Some(NoProductionModel);
      }
      var slots := models[name];
      match slot {
        case Production =>
          if slots.production.Some? {
            slots := slots.(production := Some(slots.production.value.(accuracy := Some(accuracy))));
          }
        case Shadow =>
          if slots.shadow.Some? {
            slots := slots.(shadow := Some(slots.shadow.value.(accuracy := Some(accuracy))));
          }
        case Previous =>
          if slots.previous.Some? {
            slots := slots.(previous := Some(slots.previous.value.(accuracy := Some(accuracy))));
          }
      }
      models := models[name := slots];
      error := Persist(written);
    }
  }

  function SlotsOf(models: map<string, ModelSlots>, name: string): ModelSlots {
    if name in models then models[name] else EMPTY_SLOTS
  }

  // ----- laws of the slots -----

  /** Every operation keeps the slots in order. */
  lemma SlotsStayOk(s: ModelSlots, schemaVersion: nat, now: nat, slot: ModelSlot, accuracy: real)
    requires SlotsOk(s)
    ensures SlotsOk(WithShadow(s, NextGeneration(s), schemaVersion, now))
    ensures SlotsOk(Promoted(s).slots)
    ensures SlotsOk(RolledBack(s).slots)
    ensures SlotsOk(Rated(s, slot, accuracy))
  {
  }

  /** The generation a trainer picks is newer than every version in the slots. */
  lemma NextGenerationIsNewest(s: ModelSlots)
    requires SlotsOk(s)
    ensures s.production.Some? ==> s.production.value.generation < NextGeneration(s)
    ensures s.shadow.Some? ==> s.shadow.value.generation < NextGeneration(s)
    ensures s.previous.Some? ==> s.previous.value.generation < NextGeneration(s)
  {
  }

  /** A previous version without a production version. */
  predicate Orphaned(s: ModelSlots) {
    s.previous.Some? && s.production.None?
  }

  /**
   Which failures change nothing: a promotion that finds no shadow, and a rollback
   that finds no previous version. A failed write is reported after the slots have
   moved, and a rollback of an orphaned previous version drops it.
   */
  lemma FailureLeavesSlotsIff(s: ModelSlots, written: bool)
    ensures var (o, error) := (Promoted(s), Reported(Promoted(s), written));
            error.Some? ==> (o.slots == s <==> error == Some(NoShadowModel))
    ensures var (o, error) := (RolledBack(s), Reported(RolledBack(s), written));
            error.Some? ==> (o.slots == s <==> error == Some(NoPreviousModel))
    ensures Reported(RolledBack(s), written) == Some(NoProductionModel) <==> Orphaned(s)
  {
  }

  /** Rolling a promotion back restores production and shadow, exactly when there was something in production to return to. */
  lemma RollbackUndoesPromote(s: ModelSlots)
    requires SlotsOk(s) && s.shadow.Some?
    ensures RolledBack(Promoted(s).slots).slots.production == s.production
            && RolledBack(Promoted(s).slots).slots.shadow == s.shadow
            <==> s.production.Some?
    ensures s.production.Some? ==> RolledBack(Promoted(s).slots) == Outcome(s.(previous := None), None)
    ensures s.production.None? ==> RolledBack(Promoted(s).slots) == Outcome(Promoted(s).slots, Some(NoPreviousModel))
  {
  }

  /**
   A rollback steps the trainer's numbering back exactly when it discards a waiting
   shadow: the next number is then no larger than the discarded one.
   */
  lemma RollbackStepsBackIff(s: ModelSlots)
    requires SlotsOk(s) && s.previous.Some?
    ensures NextGeneration(RolledBack(s).slots) == s.production.value.generation + 1
    ensures NextGeneration(RolledBack(s).slots) < NextGeneration(s) <==> s.shadow.Some?
    ensures s.shadow.Some? ==> NextGeneration(RolledBack(s).slots) <= s.shadow.value.generation
    ensures s.shadow.None? ==> NextGeneration(RolledBack(s).slots) == NextGeneration(s)
  {
  }
}
