/**
 The generation numbers a trainer hands out (crates/unimatrix-learn/src/service.rs)
 over whole runs of the training protocol: when each number names one version, and
 which rollbacks and restarts make a number come back.
 */
module Generations {
  import opened Prelude
  import opened Registry
  import opened TrainingProtocol

  /** A step that registers a new shadow version of `m`. */
  predicate Registers(s: State, step: Step, m: string) {
    step.RegisterShadow? && step.task in s.tasks && s.tasks[step.task] == Training(m)
  }

  /** A rollback of `m` that succeeds while a shadow version is waiting, and so discards it. */
  predicate Discards(s: State, step: Step, m: string) {
    step.Rollback? && step.model == m && m in s.models && RolledBack(s.models[m]).missing.None? && s.models[m].shadow.Some?
  }

  /** A step that writes the registry file. */
  predicate Writes(s: State, step: Step) {
    match step
    case RegisterShadow(_, _, written) => written
    case Promote(m, written) => m in s.models && Promoted(s.models[m]).missing.None? && written
    case Rollback(m, written) => m in s.models && RolledBack(s.models[m]).missing.None? && written
    case Rate(m, _, _, written) => m in s.models && written
    case _ => false
  }

  /** The number the trainer of `m` would hand out next. */
  function Next(models: map<string, ModelSlots>, m: string): nat {
    NextGeneration(SlotsOf(models, m))
  }

  /** The generation numbers of `m` in the order they were handed out. */
  ghost function Numbers(steps: seq<Step>, m: string): seq<nat>
    requires IsRun(steps)
  {
    if steps == [] then []
    else
      var before, step := steps[..|steps| - 1], steps[|steps| - 1];
      if Registers(After(before), step, m) then Numbers(before, m) + [Next(After(before).models, m)] else Numbers(before, m)
  }

  /** Whether the slots in memory, and those in the registry file, have forgotten a number that was handed out. */
  datatype Forgetting = Forgetting(memory: bool, disk: bool)

  /**
   Memory forgets when a rollback discards a waiting shadow, or when a restart cannot
   read the registry file; a restart that can read it forgets what the file has
   forgotten. The file forgets a registration that failed to write it, until the
   next successful write copies memory.
   */
  ghost function Forgotten(steps: seq<Step>, m: string): Forgetting
    requires IsRun(steps)
  {
    if steps == [] then Forgetting(false, false)
    else
      var before, step := steps[..|steps| - 1], steps[|steps| - 1];
      ForgottenNext(Forgotten(before, m), After(before), step, m, Numbers(before, m) != [])
  }

  function ForgottenNext(f: Forgetting, s: State, step: Step, m: string, any: bool): Forgetting {
    var memory :=
      if step.Restart? then (if step.readable then f.disk else any)
      else f.memory || Discards(s, step, m);
    Forgetting(memory, if Writes(s, step) then memory else f.disk || Registers(s, step, m))
  }

  // ----- one step -----

  /** What a number of registrations and a next number say about forgetting. */
  predicate Agrees(forgotten: bool, next: nat, n: nat) {
    1 <= next && if forgotten then next <= n else next == n + 1
  }

  /** What slots in order would hand out next, after each operation. */
  lemma NextAfter(s: ModelSlots, now: nat, slot: ModelSlot, accuracy: real)
    requires SlotsOk(s)
    ensures NextGeneration(s) >= 1
    ensures NextGeneration(WithShadow(s, NextGeneration(s), 1, now)) == NextGeneration(s) + 1
    ensures NextGeneration(Promoted(s).slots) == NextGeneration(s) == NextGeneration(Rated(s, slot, accuracy))
    ensures 1 <= NextGeneration(RolledBack(s).slots) <= NextGeneration(s)
    ensures NextGeneration(RolledBack(s).slots) < NextGeneration(s) <==> RolledBack(s).missing.None? && s.shadow.Some?
  {
    if s.previous.Some? {
      RollbackStepsBackIff(s);
    }
  }

  lemma NextStored(s: State, k: string, slots: ModelSlots, written: bool, m: string)
    ensures Next(Stored(s, k, slots, written).models, m) == if k == m then NextGeneration(slots) else Next(s.models, m)
  {
  }

  /** The next number moves on with a registration, back with a discarding rollback, and otherwise stays. */
  lemma StepNext(s: State, step: Step, m: string)
    requires RegistryInv(s) && Enabled(s, step) && !step.Restart?
    ensures var (n, n') := (Next(s.models, m), Next(Apply(s, step).models, m));
            && 1 <= n && 1 <= n'
            && (Registers(s, step, m) ==> n' == n + 1)
            && (!Registers(s, step, m) ==> n' <= n && (n' < n <==> Discards(s, step, m)))
  {
    hide SlotsOk, NextGeneration, Promoted, RolledBack, Rated, WithShadow, Stored, Next, MODELS;
    SlotsInOrder(s, m);
    var slots := SlotsOf(s.models, m);
    NextAfter(slots, 0, Shadow, 0.0);
    match step {
      case RegisterShadow(t, now, written) =>
        var k := s.tasks[t].model;
        var own := SlotsOf(s.models, k);
        NextAfter(slots, now, Shadow, 0.0);
        NextStored(s, k, WithShadow(own, NextGeneration(own), 1, now), written, m);
      case Promote(k, written) =>
        if k in s.models {
          NextStored(s, k, Promoted(s.models[k]).slots, Promoted(s.models[k]).missing.None? && written, m);
        }
      case Rollback(k, written) =>
        if k in s.models {
          NextStored(s, k, RolledBack(s.models[k]).slots, RolledBack(s.models[k]).missing.None? && written, m);
        }
      case Rate(k, slot, accuracy, written) =>
        NextAfter(slots, 0, slot, accuracy);
        if k in s.models {
          NextStored(s, k, Rated(s.models[k], slot, accuracy), written, m);
        }
      case _ =>
    }
  }

  lemma SlotsInOrder(s: State, m: string)
    requires RegistryInv(s)
    ensures SlotsOk(SlotsOf(s.models, m)) && Next(s.models, m) == NextGeneration(SlotsOf(s.models, m))
  {
  }

  lemma StepMemory(s: State, step: Step, m: string, f: bool, n: nat)
    requires RegistryInv(s) && Enabled(s, step) && !step.Restart? && Agrees(f, Next(s.models, m), n)
    ensures Registers(s, step, m) && !f ==> Agrees(f, Next(Apply(s, step).models, m), n + 1)
    ensures !Registers(s, step, m) ==> Agrees(f || Discards(s, step, m), Next(Apply(s, step).models, m), n)
  {
    hide RegistryInv, Apply, Registers, Discards, Next, Enabled;
    StepNext(s, step, m);
  }

  lemma StepDisk(s: State, step: Step)
    requires Enabled(s, step)
    ensures Apply(s, step).disk == if Writes(s, step) then Apply(s, step).models else s.disk
  {
  }

  lemma StepAgrees(s: State, step: Step, m: string, f: Forgetting, n: nat)
    requires RegistryInv(s) && Enabled(s, step)
    requires Agrees(f.memory, Next(s.models, m), n) && Agrees(f.disk, Next(s.disk, m), n)
    requires !(Registers(s, step, m) && f.memory)
    ensures var (f', s') := (ForgottenNext(f, s, step, m, n > 0), Apply(s, step));
            var n' := if Registers(s, step, m) then n + 1 else n;
            Agrees(f'.memory, Next(s'.models, m), n') && Agrees(f'.disk, Next(s'.disk, m), n')
  {
    hide RegistryInv, Next;
    StepDisk(s, step);
    if step.Restart? {
      NextOfNothing(m);
    } else {
      StepMemory(s, step, m, f.memory, n);
    }
  }

  lemma NextOfNothing(m: string)
    ensures Next(map[], m) == 1
  {
  }

  // ----- runs -----

  /** 1, 2, ..., n. */
  function Count(n: nat): seq<nat> {
    seq(n, i => i + 1)
  }

  /** The registration at step `j` is made from slots that have forgotten a number. */
  ghost predicate RepeatsAt(steps: seq<Step>, j: nat, m: string)
    requires j < |steps|
  {
    IsRun(steps[..j]) && Registers(After(steps[..j]), steps[j], m) && Forgotten(steps[..j], m).memory
  }

  ghost predicate NeverRepeats(steps: seq<Step>, m: string) {
    forall j :: 0 <= j < |steps| ==> !RepeatsAt(steps, j, m)
  }

  lemma NeverRepeatsStep(before: seq<Step>, step: Step, m: string)
    requires IsRun(before)
    ensures NeverRepeats(before + [step], m)
            <==> NeverRepeats(before, m) && !(Registers(After(before), step, m) && Forgotten(before, m).memory)
  {
    hide Registers, IsRun, After, Forgotten;
    var steps, n := before + [step], |before|;
    assert steps[..n] == before && steps[n] == step;
    forall j | 0 <= j < n ensures RepeatsAt(steps, j, m) <==> RepeatsAt(before, j, m) {
      assert steps[..j] == before[..j];
    }
    assert RepeatsAt(steps, n, m) <==> Registers(After(before), step, m) && Forgotten(before, m).memory;
  }

  lemma NumbersStep(before: seq<Step>, step: Step, m: string)
    requires IsRun(before + [step]) && IsRun(before)
    ensures Numbers(before + [step], m)
            == Numbers(before, m) + if Registers(After(before), step, m) then [Next(After(before).models, m)] else []
    ensures Forgotten(before + [step], m)
            == ForgottenNext(Forgotten(before, m), After(before), step, m, Numbers(before, m) != [])
  {
    hide Registers, IsRun, After, Next, ForgottenNext;
    var steps := before + [step];
    assert steps[..|steps| - 1] == before && steps[|steps| - 1] == step;
  }

  /** While nothing repeats, the numbers count up from 1, and what is forgotten shows in the next number. */
  ghost predicate Counting(steps: seq<Step>, m: string)
    requires IsRun(steps)
  {
    var (s, f, n) := (After(steps), Forgotten(steps, m), |Numbers(steps, m)|);
    && Numbers(steps, m) == Count(n)
    && Agrees(f.memory, Next(s.models, m), n)
    && Agrees(f.disk, Next(s.disk, m), n)
  }

  lemma CountingStep(before: seq<Step>, step: Step, m: string)
    requires IsRun(before + [step]) && IsRun(before) && Enabled(After(before), step)
    requires After(before + [step]) == Apply(After(before), step)
    requires Counting(before, m) && !(Registers(After(before), step, m) && Forgotten(before, m).memory)
    ensures Counting(before + [step], m)
  {
    hide IsRun, After, Registers, Next, Apply, ForgottenNext, Numbers, Forgotten, LockInv, RegistryInv, Lost, Enabled;
    RunsAreSafe(before);
    NumbersStep(before, step, m);
    StepAgrees(After(before), step, m, Forgotten(before, m), |Numbers(before, m)|);
  }

  /** A number taken from slots that have forgotten one repeats an earlier number. */
  lemma RepeatIsDuplicate(s: seq<nat>, x: nat)
    requires s == Count(|s|) && 1 <= x <= |s|
    ensures !Distinct(s + [x])
  {
    assert (s + [x])[x - 1] == x == (s + [x])[|s|];
  }

  lemma DuplicatesStay(a: seq<nat>, b: seq<nat>)
    requires !Distinct(a)
    ensures !Distinct(a + b)
  {
    var i, j :| 0 <= i < j < |a| && a[i] == a[j];
    assert (a + b)[i] == (a + b)[j];
  }

  lemma {:induction false} NumbersCount(steps: seq<Step>, m: string)
    requires IsRun(steps)
    ensures NeverRepeats(steps, m) ==> Counting(steps, m)
    ensures !NeverRepeats(steps, m) ==> !Distinct(Numbers(steps, m))
  {
    if steps == [] {
      NextOfNothing(m);
    } else {
      hide IsRun, After, Registers, Next, ForgottenNext, Numbers, Forgotten, NeverRepeats, Distinct, Enabled, Apply;
      var before, step := steps[..|steps| - 1], steps[|steps| - 1];
      assert steps == before + [step];
      RunStep(before, step);
      NumbersCount(before, m);
      NeverRepeatsStep(before, step, m);
      NumbersStep(before, step, m);
      if !NeverRepeats(before, m) {
        DuplicatesStay(Numbers(before, m), if Registers(After(before), step, m) then [Next(After(before).models, m)] else []);
      } else if Registers(After(before), step, m) && Forgotten(before, m).memory {
        RepeatIsDuplicate(Numbers(before, m), Next(After(before).models, m));
      } else {
        CountingStep(before, step, m);
      }
    }
  }

  /**
   The generation numbers of a model are pairwise distinct exactly when no version is
   registered from slots that have forgotten a number; they then count up from 1.
   */
  lemma NumbersDistinctIff(steps: seq<Step>, m: string)
    requires IsRun(steps)
    ensures Distinct(Numbers(steps, m)) <==> NeverRepeats(steps, m)
    ensures Distinct(Numbers(steps, m)) <==> Numbers(steps, m) == Count(|Numbers(steps, m)|)
  {
    hide IsRun, Numbers, NeverRepeats;
    NumbersCount(steps, m);
  }

  // ----- without restarts -----

  ghost predicate DiscardsAt(steps: seq<Step>, i: nat, m: string)
    requires i < |steps|
  {
    IsRun(steps[..i]) && Discards(After(steps[..i]), steps[i], m)
  }

  ghost predicate RegistersAt(steps: seq<Step>, j: nat, m: string)
    requires j < |steps|
  {
    IsRun(steps[..j]) && Registers(After(steps[..j]), steps[j], m)
  }

  ghost predicate Discarded(steps: seq<Step>, m: string) {
    exists i :: 0 <= i < |steps| && DiscardsAt(steps, i, m)
  }

  lemma DiscardedStep(before: seq<Step>, step: Step, m: string)
    requires IsRun(before)
    ensures Discarded(before + [step], m) <==> Discarded(before, m) || Discards(After(before), step, m)
  {
    hide IsRun, After, Discards;
    var steps, n := before + [step], |before|;
    assert steps[..n] == before && steps[n] == step;
    forall i | 0 <= i < n ensures DiscardsAt(steps, i, m) <==> DiscardsAt(before, i, m) {
      assert steps[..i] == before[..i];
    }
    assert DiscardsAt(steps, n, m) <==> Discards(After(before), step, m);
  }

  lemma {:induction false} ForgottenIsDiscarded(steps: seq<Step>, m: string)
    requires IsRun(steps) && NoRestart(steps)
    ensures Forgotten(steps, m).memory <==> Discarded(steps, m)
  {
    if steps != [] {
      hide IsRun, After, Discards, Writes, Registers, Numbers, Discarded, Forgotten;
      var n := |steps| - 1;
      var before, step := steps[..n], steps[n];
      assert steps == before + [step];
      RunStep(before, step);
      ForgottenIsDiscarded(before, m);
      NumbersStep(before, step, m);
      DiscardedStep(before, step, m);
    }
  }

  /**
   As long as the process runs, the generation numbers of a model are pairwise distinct
   exactly when no rollback that discards a waiting shadow is followed by a registration.
   */
  lemma DistinctUnlessDiscarded(steps: seq<Step>, m: string)
    requires IsRun(steps) && NoRestart(steps)
    ensures Distinct(Numbers(steps, m))
            <==> !exists i, j :: 0 <= i < j < |steps| && DiscardsAt(steps, i, m) && RegistersAt(steps, j, m)
  {
    hide IsRun, Numbers, After, Discards, Registers, Distinct;
    NumbersDistinctIff(steps, m);
    forall j | 0 <= j < |steps|
      ensures RepeatsAt(steps, j, m) <==> RegistersAt(steps, j, m) && exists i :: 0 <= i < j && DiscardsAt(steps, i, m)
    {
      RepeatsAfterDiscard(steps, j, m);
    }
  }

  lemma RepeatsAfterDiscard(steps: seq<Step>, j: nat, m: string)
    requires IsRun(steps) && NoRestart(steps) && j < |steps|
    ensures RepeatsAt(steps, j, m) <==> RegistersAt(steps, j, m) && exists i :: 0 <= i < j && DiscardsAt(steps, i, m)
  {
    hide IsRun, After, Discards, Registers, Forgotten;
    PrefixIsRun(steps, j);
    ForgottenIsDiscarded(steps[..j], m);
    forall i | 0 <= i < j ensures DiscardsAt(steps, i, m) <==> DiscardsAt(steps[..j], i, m) {
      assert steps[..i] == steps[..j][..i];
    }
  }

  // ----- a number that comes back -----

  /** A run that is idle on `m`: its flag is free, and no task from `t` on has started. */
  ghost predicate Idle(steps: seq<Step>, t: nat, m: string) {
    && IsRun(steps) && NoRestart(steps) && m in After(steps).lock && !After(steps).lock[m]
    && (forall u :: u in After(steps).tasks ==> u < t)
  }

  /** Idle, with these slots and these numbers handed out. */
  ghost predicate IdleWith(steps: seq<Step>, t: nat, m: string, slots: ModelSlots, numbers: seq<nat>) {
    Idle(steps, t, m) && SlotsOf(After(steps).models, m) == slots && Numbers(steps, m) == numbers
  }

  lemma OneMore(steps: seq<Step>, step: Step, m: string)
    requires IsRun(steps) && NoRestart(steps) && Enabled(After(steps), step) && !step.Restart?
    ensures IsRun(steps + [step]) && NoRestart(steps + [step]) && After(steps + [step]) == Apply(After(steps), step)
    ensures Numbers(steps + [step], m)
            == Numbers(steps, m) + if Registers(After(steps), step, m) then [Next(After(steps).models, m)] else []
  {
    hide IsRun, After, Numbers, Apply;
    RunStep(steps, step);
    NumbersStep(steps, step, m);
  }

  /** One undisturbed training run. */
  lemma TrainRun(steps: seq<Step>, t: nat, m: string, slots: ModelSlots, numbers: seq<nat>) returns (longer: seq<Step>)
    requires IdleWith(steps, t, m, slots, numbers)
    ensures IdleWith(longer, t + 1, m, WithShadow(slots, NextGeneration(slots), 1, 0), numbers + [NextGeneration(slots)])
  {
    hide IsRun, After, Numbers;
    OneMore(steps, TryLock(t, m), m);
    var a := steps + [TryLock(t, m)];
    OneMore(a, Spawn(t), m);
    var b := a + [Spawn(t)];
    OneMore(b, RegisterShadow(t, 0, true), m);
    var c := b + [RegisterShadow(t, 0, true)];
    OneMore(c, DropGuard(t), m);
    longer := c + [DropGuard(t)];
  }

  /** One promotion. */
  lemma PromoteRun(steps: seq<Step>, t: nat, m: string, slots: ModelSlots, numbers: seq<nat>) returns (longer: seq<Step>)
    requires IdleWith(steps, t, m, slots, numbers) && slots.shadow.Some?
    ensures IdleWith(longer, t, m, Promoted(slots).slots, numbers)
  {
    hide IsRun, After, Numbers;
    longer := steps + [Promote(m, true)];
    OneMore(steps, Promote(m, true), m);
  }

  /** One rollback. */
  lemma RollbackRun(steps: seq<Step>, t: nat, m: string, slots: ModelSlots, numbers: seq<nat>) returns (longer: seq<Step>)
    requires IdleWith(steps, t, m, slots, numbers) && slots.shadow.Some?
    ensures IdleWith(longer, t, m, RolledBack(slots).slots, numbers)
  {
    hide IsRun, After, Numbers;
    longer := steps + [Rollback(m, true)];
    OneMore(steps, Rollback(m, true), m);
  }

  lemma NothingDone(m: string)
    requires m in MODELS
    ensures IdleWith([], 0, m, EMPTY_SLOTS, [])
  {
  }

  /** Train, promote, train, promote, train, roll back, train: the number 3 is handed out twice. */
  lemma NumberComesBack(m: string) returns (steps: seq<Step>)
    requires m in MODELS
    ensures IsRun(steps) && NoRestart(steps) && Numbers(steps, m) == [1, 2, 3, 3]
  {
    hide IsRun, After, Numbers, Idle;
    NothingDone(m);
    steps := TrainRun([], 0, m, EMPTY_SLOTS, []);
    var s1 := WithShadow(EMPTY_SLOTS, 1, 1, 0);
    steps := PromoteRun(steps, 1, m, s1, [1]);
    var s2 := Promoted(s1).slots;
    steps := TrainRun(steps, 1, m, s2, [1]);
    var s3 := WithShadow(s2, 2, 1, 0);
    steps := PromoteRun(steps, 2, m, s3, [1, 2]);
    var s4 := Promoted(s3).slots;
    steps := TrainRun(steps, 2, m, s4, [1, 2]);
    var s5 := WithShadow(s4, 3, 1, 0);
    steps := RollbackRun(steps, 3, m, s5, [1, 2, 3]);
    steps := TrainRun(steps, 3, m, RolledBack(s5).slots, [1, 2, 3]);
    IdleRuns(steps, 4, m);
  }

  /** A reachable promotion that reports a failed write and has moved the slots all the same. */
  lemma FailedWriteMoves(m: string) returns (steps: seq<Step>)
    requires m in MODELS
    ensures IsRun(steps) && m in After(steps).models
    ensures Reported(Promoted(After(steps).models[m]), false) == Some(Io)
    ensures Apply(After(steps), Promote(m, false)) != After(steps)
  {
    hide IsRun, After, Numbers, Apply;
    NothingDone(m);
    steps := TrainRun([], 0, m, EMPTY_SLOTS, []);
    FailuresChangeNothingIff(steps, m, false);
  }

  lemma IdleRuns(steps: seq<Step>, t: nat, m: string)
    requires Idle(steps, t, m)
    ensures IsRun(steps) && NoRestart(steps)
  {
  }
}
