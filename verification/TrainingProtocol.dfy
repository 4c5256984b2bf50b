/**
 The training protocol (crates/unimatrix-learn/src/service.rs) as a state machine:
 any number of tasks race for the per-model lock flags by compare-and-swap, hold a
 flag while a training thread runs, register a shadow version under the registry
 mutex, and release the flag by dropping their guard. Promotions, rollbacks and
 accuracy updates interleave freely with them. Thread creation may fail, a write
 of the registry file may fail, and the process may restart from that file.
 */
module TrainingProtocol {
  import opened Prelude
  import opened Registry

  const MODELS: set<string> := {"signal_classifier", "convention_scorer"}

  /** Where a call of `try_train_step`, and the thread it may spawn, has got to. */
  datatype Task =
    | Holding(model: string)      // flag taken, batch not yet sampled
    | Training(model: string)     // guard moved into the training thread
    | Registered(model: string)   // shadow stored, guard not yet dropped
    | Finished

  /** Flags, tasks and slots in memory, and the slots in the registry file. */
  datatype State = State(
    lock: map<string, bool>, tasks: map<nat, Task>, models: map<string, ModelSlots>, disk: map<string, ModelSlots>)

  datatype Step =
    | TryLock(task: nat, model: string)
    | EmptyBatch(task: nat)
    | Spawn(task: nat)
    | SpawnFails(task: nat)       // thread creation panics before the guard exists
    | Discard(task: nat)
    | RegisterShadow(task: nat, now: nat, written: bool)
    | DropGuard(task: nat)
    | Promote(model: string, written: bool)
    | Rollback(model: string, written: bool)
    | Rate(model: string, slot: ModelSlot, accuracy: real, written: bool)
    | Restart(readable: bool)

  const UNLOCKED: map<string, bool> := map m | m in MODELS :: false
  const INIT := State(UNLOCKED, map[], map[], map[])

  predicate Enabled(s: State, step: Step) {
    match step
    case TryLock(t, _) => t !in s.tasks
    case EmptyBatch(t) => t in s.tasks && s.tasks[t].Holding?
    case Spawn(t) => t in s.tasks && s.tasks[t].Holding?
    case SpawnFails(t) => t in s.tasks && s.tasks[t].Holding?
    case Discard(t) => t in s.tasks && s.tasks[t].Training?
    case RegisterShadow(t, _, _) => t in s.tasks && s.tasks[t].Training?
    case DropGuard(t) => t in s.tasks && s.tasks[t].Registered?
    case _ => true
  }

  /** The slots of one model replaced, and the registry file with them if the write succeeds. */
  function Stored(s: State, m: string, slots: ModelSlots, written: bool): State {
    var models := s.models[m := slots];
    s.(models := models, disk := if written then models else s.disk)
  }

  /** A slot move: an operation that stops at a missing slot writes nothing. */
  function MovedTo(s: State, m: string, o: Outcome, written: bool): State {
    Stored(s, m, o.slots, o.missing.None? && written)
  }

  function Apply(s: State, step: Step): State
    requires Enabled(s, step)
  {
    match step
    case TryLock(t, m) =>
      if m in s.lock && !s.lock[m] then s.(lock := s.lock[m := true], tasks := s.tasks[t := Holding(m)])
      else s.(tasks := s.tasks[t := Finished])
    case EmptyBatch(t) => s.(lock := s.lock[s.tasks[t].model := false], tasks := s.tasks[t := Finished])
    case Spawn(t) => s.(tasks := s.tasks[t := Training(s.tasks[t].model)])
    case SpawnFails(t) => s.(tasks := s.tasks[t := Finished])
    case Discard(t) => s.(lock := s.lock[s.tasks[t].model := false], tasks := s.tasks[t := Finished])
    case RegisterShadow(t, now, written) =>
      var m := s.tasks[t].model;
      var slots := SlotsOf(s.models, m);
      Stored(s, m, WithShadow(slots, NextGeneration(slots), 1, now), written).(tasks := s.tasks[t := Registered(m)])
    case DropGuard(t) => s.(lock := s.lock[s.tasks[t].model := false], tasks := s.tasks[t := Finished])
    case Promote(m, written) => if m in s.models then MovedTo(s, m, Promoted(s.models[m]), written) else s
    case Rollback(m, written) => if m in s.models then MovedTo(s, m, RolledBack(s.models[m]), written) else s
    case Rate(m, slot, accuracy, written) =>
      if m in s.models then Stored(s, m, Rated(s.models[m], slot, accuracy), written) else s
    case Restart(readable) => State(UNLOCKED, map[], if readable then s.disk else map[], s.disk)
  }

  // ----- runs -----

  ghost predicate IsRun(steps: seq<Step>)
    decreases |steps|, 0
  {
    if steps == [] then true
    else IsRun(steps[..|steps| - 1]) && Enabled(After(steps[..|steps| - 1]), steps[|steps| - 1])
  }

  ghost function After(steps: seq<Step>): State
    requires IsRun(steps)
    decreases |steps|, 1
  {
    if steps == [] then INIT else Apply(After(steps[..|steps| - 1]), steps[|steps| - 1])
  }

  lemma RunStep(before: seq<Step>, step: Step)
    ensures IsRun(before + [step]) <==> IsRun(before) && Enabled(After(before), step)
    ensures IsRun(before + [step]) ==> After(before + [step]) == Apply(After(before), step)
  {
    assert (before + [step])[..|before|] == before;
  }

  lemma {:induction false} PrefixIsRun(steps: seq<Step>, i: nat)
    requires IsRun(steps) && i <= |steps|
    ensures IsRun(steps[..i])
  {
    if i == |steps| {
      assert steps[..i] == steps;
    } else {
      var n := |steps| - 1;
      PrefixIsRun(steps[..n], i);
      assert steps[..n][..i] == steps[..i];
    }
  }

  // ----- invariants -----

  predicate Owns(s: State, t: nat, m: string) {
    t in s.tasks && !s.tasks[t].Finished? && s.tasks[t].model == m
  }

  /** An owned flag is set, and has one owner. */
  ghost predicate LockInv(s: State) {
    && s.lock.Keys == MODELS
    && (forall t, m :: Owns(s, t, m) ==> m in s.lock && s.lock[m])
    && (forall t, u, m :: Owns(s, t, m) && Owns(s, u, m) ==> t == u)
  }

  /** A flag that is set without an owner. */
  ghost predicate Stranded(s: State, m: string) {
    m in s.lock && s.lock[m] && forall t :: !Owns(s, t, m)
  }

  ghost predicate SlotsInv(models: map<string, ModelSlots>) {
    models.Keys <= MODELS && forall m :: m in models ==> SlotsOk(models[m])
  }

  ghost predicate RegistryInv(s: State) {
    SlotsInv(s.models) && SlotsInv(s.disk)
  }

  /** The step in which the task that holds the flag of `m` fails to create its thread. */
  predicate LosesFlag(s: State, step: Step, m: string) {
    step.SpawnFails? && step.task in s.tasks && s.tasks[step.task] == Holding(m)
  }

  lemma TakeLock(s: State, t: nat, m: string)
    requires LockInv(s) && t !in s.tasks && m in s.lock && !s.lock[m]
    ensures var s' := s.(lock := s.lock[m := true], tasks := s.tasks[t := Holding(m)]);
            LockInv(s') && forall k :: Stranded(s', k) <==> Stranded(s, k)
  {
    var s' := s.(lock := s.lock[m := true], tasks := s.tasks[t := Holding(m)]);
    forall u, k ensures Owns(s', u, k) <==> Owns(s, u, k) || (u == t && k == m) {
    }
    assert Owns(s', t, m);
  }

  /** When an owner finishes, its model has no owner left, and all others keep theirs. */
  lemma OneOwnerLeaves(s: State, s': State, t: nat, u: nat, k: string)
    requires LockInv(s) && t in s.tasks && !s.tasks[t].Finished? && s'.tasks == s.tasks[t := Finished]
    ensures Owns(s', u, k) <==> Owns(s, u, k) && k != s.tasks[t].model
  {
    assert Owns(s, t, s.tasks[t].model);
    if u == t {
      assert !Owns(s', u, k);
    } else if Owns(s, u, k) {
      assert Owns(s', u, k);
    }
  }

  lemma FreeLock(s: State, t: nat)
    requires LockInv(s) && t in s.tasks && !s.tasks[t].Finished?
    ensures var s' := s.(lock := s.lock[s.tasks[t].model := false], tasks := s.tasks[t := Finished]);
            LockInv(s') && forall k :: Stranded(s', k) <==> Stranded(s, k)
  {
    var m := s.tasks[t].model;
    var s' := s.(lock := s.lock[m := false], tasks := s.tasks[t := Finished]);
    assert Owns(s, t, m);
    forall u, k ensures Owns(s', u, k) <==> Owns(s, u, k) && k != m {
      OneOwnerLeaves(s, s', t, u, k);
    }
  }

  lemma LoseLock(s: State, t: nat)
    requires LockInv(s) && t in s.tasks && s.tasks[t].Holding?
    ensures var s' := s.(tasks := s.tasks[t := Finished]);
            LockInv(s') && forall k :: Stranded(s', k) <==> Stranded(s, k) || k == s.tasks[t].model
  {
    var m := s.tasks[t].model;
    var s' := s.(tasks := s.tasks[t := Finished]);
    assert Owns(s, t, m);
    forall u, k ensures Owns(s', u, k) <==> Owns(s, u, k) && k != m {
      OneOwnerLeaves(s, s', t, u, k);
    }
  }

  /** Steps that leave every ownership as it is keep the lock invariant. */
  lemma SameOwners(s: State, s': State)
    requires LockInv(s) && s'.lock == s.lock
    requires forall t, m :: Owns(s, t, m) <==> Owns(s', t, m)
    ensures LockInv(s') && forall k :: Stranded(s', k) <==> Stranded(s, k)
  {
  }

  /** Every step keeps owned flags set and owners unique, and only a failed thread creation strands a flag. */
  lemma StepKeepsLocks(s: State, step: Step, m: string)
    requires LockInv(s) && Enabled(s, step)
    ensures LockInv(Apply(s, step))
    ensures Stranded(Apply(s, step), m) <==> !step.Restart? && (Stranded(s, m) || LosesFlag(s, step, m))
  {
    hide LockInv, Stranded;
    match step {
      case TryLock(t, k) =>
        if k in s.lock && !s.lock[k] {
          TakeLock(s, t, k);
        } else {
          SameOwners(s, Apply(s, step));
        }
      case EmptyBatch(t) => FreeLock(s, t);
      case Discard(t) => FreeLock(s, t);
      case DropGuard(t) => FreeLock(s, t);
      case SpawnFails(t) => LoseLock(s, t);
      case Restart(_) => FreshLocks(Apply(s, step));
      case Spawn(t) => SameOwners(s, Apply(s, step));
      case RegisterShadow(t, _, _) => SameOwners(s, Apply(s, step));
      case Promote(_, _) => SameOwners(s, Apply(s, step));
      case Rollback(_, _) => SameOwners(s, Apply(s, step));
      case Rate(_, _, _, _) => SameOwners(s, Apply(s, step));
    }
  }

  lemma FreshLocks(s: State)
    requires s.lock == UNLOCKED && s.tasks == map[]
    ensures LockInv(s) && forall k :: !Stranded(s, k)
  {
  }

  lemma StoredKeepsRegistry(s: State, m: string, slots: ModelSlots, written: bool)
    requires RegistryInv(s) && m in MODELS && SlotsOk(slots)
    ensures RegistryInv(Stored(s, m, slots, written))
  {
  }

  lemma StepKeepsRegistry(s: State, step: Step)
    requires LockInv(s) && RegistryInv(s) && Enabled(s, step)
    ensures RegistryInv(Apply(s, step))
  {
    hide SlotsOk, MODELS;
    match step {
      case RegisterShadow(t, now, written) =>
        var m := s.tasks[t].model;
        assert Owns(s, t, m);
        EmptySlotsOk();
        SlotsStayOk(SlotsOf(s.models, m), 1, now, Shadow, 0.0);
        StoredKeepsRegistry(s, m, WithShadow(SlotsOf(s.models, m), NextGeneration(SlotsOf(s.models, m)), 1, now), written);
      case Promote(m, written) =>
        if m in s.models {
          SlotsStayOk(s.models[m], 0, 0, Shadow, 0.0);
          StoredKeepsRegistry(s, m, Promoted(s.models[m]).slots, Promoted(s.models[m]).missing.None? && written);
        }
      case Rollback(m, written) =>
        if m in s.models {
          SlotsStayOk(s.models[m], 0, 0, Shadow, 0.0);
          StoredKeepsRegistry(s, m, RolledBack(s.models[m]).slots, RolledBack(s.models[m]).missing.None? && written);
        }
      case Rate(m, slot, accuracy, written) =>
        if m in s.models {
          SlotsStayOk(s.models[m], 0, 0, slot, accuracy);
          StoredKeepsRegistry(s, m, Rated(s.models[m], slot, accuracy), written);
        }
      case _ =>
    }
  }

  lemma EmptySlotsOk()
    ensures SlotsOk(EMPTY_SLOTS)
  {
  }

  // ----- lost flags -----

  /** Thread creation failed at step `i` for the task that held the flag of `m`. */
  ghost predicate LostAt(steps: seq<Step>, i: nat, m: string)
    requires i < |steps|
  {
    IsRun(steps[..i]) && LosesFlag(After(steps[..i]), steps[i], m)
  }

  ghost predicate NoRestart(steps: seq<Step>) {
    forall i :: 0 <= i < |steps| ==> !steps[i].Restart?
  }

  /** The flag of `m` was lost to a failed thread creation, with no restart since. */
  ghost predicate Lost(steps: seq<Step>, m: string) {
    exists i :: 0 <= i < |steps| && LostAt(steps, i, m) && NoRestart(steps[i..])
  }

  lemma LostAtPrefix(before: seq<Step>, more: seq<Step>, i: nat, m: string)
    requires i < |before|
    ensures LostAt(before + more, i, m) <==> LostAt(before, i, m)
  {
    assert (before + more)[..i] == before[..i];
  }

  lemma LostGrows(before: seq<Step>, more: seq<Step>, m: string)
    requires Lost(before, m) && NoRestart(more)
    ensures Lost(before + more, m)
  {
    hide LostAt;
    var i :| 0 <= i < |before| && LostAt(before, i, m) && NoRestart(before[i..]);
    LostAtPrefix(before, more, i, m);
    assert (before + more)[i..] == before[i..] + more;
  }

  lemma LostStep(before: seq<Step>, step: Step, m: string)
    requires IsRun(before)
    ensures Lost(before + [step], m) <==> !step.Restart? && (Lost(before, m) || LosesFlag(After(before), step, m))
  {
    hide LosesFlag, IsRun, After;
    var steps, n := before + [step], |before|;
    assert steps[..n] == before && steps[n] == step && steps[n..] == [step];
    if !step.Restart? && Lost(before, m) {
      LostGrows(before, [step], m);
    }
    if !step.Restart? && LosesFlag(After(before), step, m) {
      assert LostAt(steps, n, m) && NoRestart(steps[n..]);
    }
    if Lost(steps, m) {
      var i :| 0 <= i < |steps| && LostAt(steps, i, m) && NoRestart(steps[i..]);
      assert steps[i..][|steps[i..]| - 1] == step;
      if i < n {
        LostAtPrefix(before, [step], i, m);
        assert steps[i..] == before[i..] + [step];
        assert forall j :: 0 <= j < |before[i..]| ==> before[i..][j] == steps[i..][j];
        assert NoRestart(before[i..]);
      }
    }
  }

  // ----- safety -----

  ghost predicate Safe(steps: seq<Step>)
    requires IsRun(steps)
  {
    var s := After(steps);
    && LockInv(s) && RegistryInv(s)
    && (forall m :: Stranded(s, m) <==> Lost(steps, m))
  }

  lemma {:induction false} SafeRun(steps: seq<Step>)
    requires IsRun(steps)
    ensures Safe(steps)
  {
    hide LockInv, RegistryInv, Apply, Stranded, Lost, Enabled;
    if steps == [] {
      InitSafe();
    } else {
      var before, step := steps[..|steps| - 1], steps[|steps| - 1];
      assert steps == before + [step];
      SafeRun(before);
      StepKeepsLocks(After(before), step, "");
      StepKeepsRegistry(After(before), step);
      forall m ensures Stranded(After(steps), m) <==> Lost(steps, m) {
        StepKeepsLocks(After(before), step, m);
        LostStep(before, step, m);
      }
    }
  }

  lemma InitSafe()
    ensures Safe([])
  {
    FreshLocks(INIT);
  }

  /**
   In every interleaving a flag is set exactly while one task owns it or after it
   was lost to a failed thread creation, never both; and all slots stay in order.
   */
  lemma RunsAreSafe(steps: seq<Step>)
    requires IsRun(steps)
    ensures LockInv(After(steps)) && RegistryInv(After(steps))
    ensures forall m :: m in MODELS ==> (After(steps).lock[m] <==> (exists t :: Owns(After(steps), t, m)) || Lost(steps, m))
    ensures forall t, m :: Owns(After(steps), t, m) ==> !Lost(steps, m)
  {
    hide After, IsRun, Lost, RegistryInv;
    SafeRun(steps);
    assert After(steps).lock.Keys == MODELS;
    forall m | m in MODELS ensures Lost(steps, m) <==> After(steps).lock[m] && forall t :: !Owns(After(steps), t, m) {
      assert Stranded(After(steps), m) <==> Lost(steps, m);
    }
    forall t, m | Owns(After(steps), t, m) ensures !Lost(steps, m) {
      assert !Stranded(After(steps), m);
    }
  }

  /** No two tasks ever train the same model at once. */
  lemma MutualExclusion(steps: seq<Step>, t: nat, u: nat, m: string)
    requires IsRun(steps) && Owns(After(steps), t, m) && Owns(After(steps), u, m)
    ensures t == u
  {
    RunsAreSafe(steps);
  }

  // ----- progress -----

  /** How many steps a task may still have to take. */
  function Rank(s: State, t: nat): nat {
    if t !in s.tasks then 0
    else match s.tasks[t]
      case Holding(_) => 3
      case Training(_) => 2
      case Registered(_) => 1
      case Finished => 0
  }

  predicate ActsFor(step: Step, t: nat) {
    (step.EmptyBatch? || step.Spawn? || step.SpawnFails? || step.Discard? || step.RegisterShadow? || step.DropGuard?)
    && step.task == t
  }

  function OwnSteps(steps: seq<Step>, t: nat): nat {
    if steps == [] then 0
    else OwnSteps(steps[..|steps| - 1], t) + if ActsFor(steps[|steps| - 1], t) then 1 else 0
  }

  /** Neither a restart nor a failed thread creation of task `t`. */
  ghost predicate Undisturbed(steps: seq<Step>, t: nat) {
    forall i :: 0 <= i < |steps| ==> !steps[i].Restart? && steps[i] != SpawnFails(t)
  }

  ghost predicate FlagClear(steps: seq<Step>, m: string) {
    IsRun(steps) && m in After(steps).lock && !After(steps).lock[m]
  }

  /** Whatever step an owner takes, it comes closer to its end, and gives the flag back when it gets there. */
  lemma OwnStep(s: State, step: Step, t: nat, m: string)
    requires Owns(s, t, m) && Enabled(s, step) && ActsFor(step, t) && !step.SpawnFails?
    ensures Rank(Apply(s, step), t) < Rank(s, t)
    ensures if Rank(Apply(s, step), t) == 0 then m in Apply(s, step).lock && !Apply(s, step).lock[m]
            else Owns(Apply(s, step), t, m)
  {
  }

  /** Nobody else's step moves an owner or its flag. */
  lemma OthersStep(s: State, step: Step, t: nat, m: string)
    requires LockInv(s) && Owns(s, t, m) && Enabled(s, step) && !ActsFor(step, t) && !step.Restart?
    ensures Owns(Apply(s, step), t, m) && Rank(Apply(s, step), t) == Rank(s, t)
    ensures m in Apply(s, step).lock && Apply(s, step).lock[m]
  {
    if step.EmptyBatch? || step.Discard? || step.DropGuard? {
      assert Owns(s, step.task, s.tasks[step.task].model);
    }
  }

  /** An owner is never blocked. */
  lemma OwnerCanMove(s: State, t: nat, m: string) returns (step: Step)
    requires Owns(s, t, m)
    ensures ActsFor(step, t) && Enabled(s, step) && !step.SpawnFails?
  {
    step := match s.tasks[t]
      case Holding(_) => Spawn(t)
      case Training(_) => RegisterShadow(t, 0, true)
      case _ => DropGuard(t);
  }

  /** After `more` the owner still holds the flag, closer to its end by its own steps; or the flag was given back. */
  ghost predicate Progress(steps: seq<Step>, more: seq<Step>, t: nat, m: string)
    requires IsRun(steps) && IsRun(steps + more)
  {
    || (Owns(After(steps + more), t, m) && OwnSteps(more, t) + Rank(After(steps + more), t) <= Rank(After(steps), t))
    || exists i :: 0 <= i <= |more| && FlagClear(steps + more[..i], m)
  }

  lemma {:induction false} OwnerProgress(steps: seq<Step>, more: seq<Step>, t: nat, m: string)
    requires IsRun(steps) && IsRun(steps + more) && Owns(After(steps), t, m) && Undisturbed(more, t)
    ensures Progress(steps, more, t, m)
    decreases |more|
  {
    hide After, IsRun, Apply, LockInv, Enabled, ActsFor, Rank, Owns, FlagClear;
    if more == [] {
      assert steps + more == steps;
    } else {
      var n := |more| - 1;
      var before, step := more[..n], more[n];
      assert steps + more == (steps + before) + [step];
      RunStep(steps + before, step);
      OwnerProgress(steps, before, t, m);
      if i :| 0 <= i <= |before| && FlagClear(steps + before[..i], m) {
        assert before[..i] == more[..i];
      } else {
        OwnerProgressStep(steps + before, step, t, m);
        assert more[..n + 1] == more;
      }
    }
  }

  lemma OwnerProgressStep(steps: seq<Step>, step: Step, t: nat, m: string)
    requires IsRun(steps) && Owns(After(steps), t, m) && Enabled(After(steps), step)
    requires IsRun(steps + [step]) && After(steps + [step]) == Apply(After(steps), step)
    requires !step.Restart? && step != SpawnFails(t)
    ensures || FlagClear(steps + [step], m)
            || (&& Owns(After(steps + [step]), t, m)
                && (if ActsFor(step, t) then 1 else 0) + Rank(After(steps + [step]), t) <= Rank(After(steps), t))
  {
    hide After, IsRun, Apply, LockInv, Enabled, Rank, Owns;
    if ActsFor(step, t) {
      OwnStep(After(steps), step, t, m);
    } else {
      RunsAreSafe(steps);
      OthersStep(After(steps), step, t, m);
    }
  }

  /** Three steps of the owner, whichever they are and whatever happens in between, clear the flag. */
  lemma OwnerClearsFlag(steps: seq<Step>, more: seq<Step>, t: nat, m: string)
    requires IsRun(steps) && IsRun(steps + more) && Owns(After(steps), t, m) && Undisturbed(more, t)
    requires OwnSteps(more, t) >= Rank(After(steps), t)
    ensures Rank(After(steps), t) <= 3
    ensures exists i :: 0 <= i <= |more| && FlagClear(steps + more[..i], m)
  {
    hide After, IsRun;
    OwnerProgress(steps, more, t, m);
  }

  /** The flag of `m` is set after every restart-free continuation of the run. */
  ghost predicate StuckForever(steps: seq<Step>, m: string) {
    forall more :: IsRun(steps + more) && NoRestart(more) ==> m in After(steps + more).lock && After(steps + more).lock[m]
  }

  /** A flag stays set for ever, short of a restart, exactly when thread creation failed for the task that held it. */
  lemma StuckIffLost(steps: seq<Step>, m: string)
    requires IsRun(steps) && m in MODELS
    ensures StuckForever(steps, m) <==> Lost(steps, m)
  {
    hide After, IsRun, Lost, LockInv, RegistryInv;
    if Lost(steps, m) {
      forall more | IsRun(steps + more) && NoRestart(more)
        ensures m in After(steps + more).lock && After(steps + more).lock[m]
      {
        LostGrows(steps, more, m);
        SafeRun(steps + more);
        assert Stranded(After(steps + more), m);
      }
    }
    if StuckForever(steps, m) {
      StuckIsStranded(steps, m);
      SafeRun(steps);
      assert Stranded(After(steps), m);
    }
  }

  lemma StuckIsStranded(steps: seq<Step>, m: string)
    requires IsRun(steps) && StuckForever(steps, m)
    ensures Stranded(After(steps), m)
  {
    hide After, IsRun;
    assert steps + [] == steps;
    forall t ensures !Owns(After(steps), t, m) {
      if Owns(After(steps), t, m) {
        OwnedIsNotStuck(steps, t, m);
      }
    }
  }

  lemma OwnedIsNotStuck(steps: seq<Step>, t: nat, m: string)
    requires IsRun(steps) && Owns(After(steps), t, m)
    ensures !StuckForever(steps, m)
  {
    hide After, IsRun;
    var step := match After(steps).tasks[t]
      case Holding(_) => EmptyBatch(t)
      case Training(_) => Discard(t)
      case _ => DropGuard(t);
    RunStep(steps, step);
    assert NoRestart([step]);
  }

  /** It does happen: a task takes the flag, and its thread cannot be created. */
  lemma FlagGetsStuck(m: string) returns (steps: seq<Step>)
    requires m in MODELS
    ensures IsRun(steps) && Lost(steps, m) && StuckForever(steps, m)
  {
    hide IsRun, After, Lost, StuckForever;
    NothingHappened();
    RunStep([], TryLock(0, m));
    var taken := [] + [TryLock(0, m)];
    RunStep(taken, SpawnFails(0));
    steps := taken + [SpawnFails(0)];
    LostStep(taken, SpawnFails(0), m);
    StuckIffLost(steps, m);
  }

  lemma NothingHappened()
    ensures IsRun([]) && After([]) == INIT
  {
  }

  /** A restart frees every flag. */
  lemma RestartFrees(steps: seq<Step>, readable: bool, m: string)
    requires IsRun(steps) && m in MODELS
    ensures FlagClear(steps + [Restart(readable)], m)
  {
    RunStep(steps, Restart(readable));
  }

  // ----- slots -----

  lemma MoveChangesNothingIff(s: State, m: string, o: Outcome, written: bool)
    requires m in s.models
    ensures o.slots == s.models[m] && !(o.missing.None? && written) ==> MovedTo(s, m, o, written) == s
    ensures o.slots != s.models[m] ==> MovedTo(s, m, o, written) != s
  {
    assert s.models[m := o.slots][m] == o.slots;
    assert o.slots == s.models[m] ==> s.models[m := o.slots] == s.models;
  }

  /**
   In a reachable state a promotion or rollback that reports an error leaves every
   slot as it was exactly when the error is a missing slot: after a failed write
   the slots have moved.
   */
  lemma FailuresChangeNothingIff(steps: seq<Step>, m: string, written: bool)
    requires IsRun(steps) && m in After(steps).models
    ensures var (s, error) := (After(steps), Reported(Promoted(After(steps).models[m]), written));
            error.Some? ==> (Apply(s, Promote(m, written)) == s <==> error != Some(Io))
    ensures var (s, error) := (After(steps), Reported(RolledBack(After(steps).models[m]), written));
            error.Some? ==> (Apply(s, Rollback(m, written)) == s <==> error != Some(Io))
  {
    hide After, IsRun, LockInv, Lost, MovedTo, Promoted, RolledBack;
    var s := After(steps);
    RunsAreSafe(steps);
    FailureLeavesSlotsIff(s.models[m], written);
    MissingSlots(s.models[m]);
    MoveChangesNothingIff(s, m, Promoted(s.models[m]), written);
    MoveChangesNothingIff(s, m, RolledBack(s.models[m]), written);
  }

  /** Slots in order miss a shadow on promotion, and a previous version on rollback. */
  lemma MissingSlots(s: ModelSlots)
    requires SlotsOk(s)
    ensures Promoted(s).missing.Some? ==> Promoted(s).missing == Some(NoShadowModel)
    ensures RolledBack(s).missing.Some? ==> RolledBack(s).missing == Some(NoPreviousModel)
  {
  }

  lemma MoveTwice(s: State, m: string, o: Outcome, w: bool, o': Outcome, w': bool)
    ensures var back := MovedTo(MovedTo(s, m, o, w), m, o', w');
            && back.models == s.models[m := o'.slots] && back.lock == s.lock && back.tasks == s.tasks
            && (o'.missing.None? && w' ==> back.disk == back.models)
    ensures m in MovedTo(s, m, o, w).models && MovedTo(s, m, o, w).models[m] == o.slots
  {
  }

  /** In a reachable state, promote then rollback restores production and shadow whenever there was a production model. */
  lemma RollbackRestores(steps: seq<Step>, m: string, w: bool, w': bool)
    requires IsRun(steps) && m in After(steps).models
    requires After(steps).models[m].shadow.Some? && After(steps).models[m].production.Some?
    ensures var s := After(steps);
            var back := Apply(Apply(s, Promote(m, w)), Rollback(m, w'));
            && back.models == s.models[m := s.models[m].(previous := None)]
            && back.lock == s.lock && back.tasks == s.tasks
            && (w' ==> back.disk == back.models)
  {
    hide After, IsRun, LockInv, Lost, MovedTo, Promoted, RolledBack;
    RunsAreSafe(steps);
    var s := After(steps);
    var o := Promoted(s.models[m]);
    RollbackUndoesPromote(s.models[m]);
    MoveTwice(s, m, o, w, RolledBack(o.slots), w');
  }
}
