/** Any sequence of operations on an app; and where resources or an error can be left behind. */
module AppRuns {
  import opened Base
  import opened AppSteps
  import opened AppSafety

  datatype Operation =
    | Installation(manifest: bool) | Activation(generation: nat) | Deactivation | RollingBack
    | Start | Stop | Recovery | Collection(keep: nat) | Removal

  ghost function Perform(w: World, op: Operation): Ran {
    match op
    case Installation(manifest) => Install(w, manifest)
    case Activation(g) => ActivateGeneration(w, g)
    case Deactivation => Deactivate(w)
    case RollingBack => Rollback(w)
    case Start => StartApp(w)
    case Stop => StopApp(w)
    case Recovery => Recover(w)
    case Collection(keep) => Gc(w, keep)
    case Removal => RemoveApp(w)
  }

  /** The operations one after the other, whether they end well or with an error, or are cut off. */
  ghost function PerformAll(w: World, ops: seq<Operation>): World
    decreases |ops|
  {
    if ops == [] then w else PerformAll(Perform(w, ops[0]).world, ops[1..])
  }

  lemma ActivationSafe(w: World, g: nat)
    requires Safe(w)
    ensures Safe(ActivateGeneration(w, g).world) && Kept(w, ActivateGeneration(w, g).world)
  {
    SwitchFacts(w, w.Current(), Some(g), false);
  }

  lemma ErrorFacts(w: World, from: Option<nat>, failed: nat)
    ensures var r := RecoverError(w, from, failed);
      Kept(w, r.world) && w.activated <= r.world.activated && r.outcome != Failed &&
      (r.world.state == w.state || NowActive(r.world, failed) || (from.Some? && NowActive(r.world, from.value)))
  {
    var target := if from.Some? then from.value else failed;
    ActivateFacts(w, target);
    ActivateFacts(RunActivate(w, target).world, failed);
  }

  lemma RecoverySafe(w: World)
    requires Safe(w)
    ensures Safe(Recover(w).world) && Kept(w, Recover(w).world)
  {
    match w.state
    case Switching(from, to, _) => SwitchFacts(w, from, to, true);
    case Error(from, failed) => ErrorFacts(w, from, failed);
    case _ =>
  }

  lemma WorkloadSafe(w: World, during: AppState)
    requires Safe(w) && w.state.Active?
    requires during == Starting(w.state.generation) || during == Stopping(w.state.generation)
    ensures Safe(ChangeWorkload(w, during).world)
  {
    var s := WriteState(w, during);
    WriteFacts(w, during);
    WriteFacts(RunWorkload(s.world, w.state.generation).world, w.state);
  }

  /** Recovery keeps the generations, and gets an interrupted switch to exactly the right resources. */
  lemma RecoveryKept(w: World)
    ensures Kept(w, Recover(w).world) && (Safe(w) ==> Safe(Recover(w).world))
    ensures w.state.Switching? && Ready(w) && Exact(w) ==> WellEnded(Recover(w), w.state.from, w.state.to)
  {
    if Safe(w) {
      RecoverySafe(w);
    }
    match w.state
    case Switching(from, to, _) =>
      SwitchFacts(w, from, to, true);
      if Ready(w) && Exact(w) {
        SwitchExact(w, from, to, true);
      }
    case Error(from, failed) => ErrorFacts(w, from, failed);
    case _ =>
  }

  /** The generation is active again, whatever the orchestrator's outcome, exactly if the state could be
      recorded, or could not even be changed; and all ends well exactly if the orchestrator does, too. */
  ghost predicate EndsActive(w: World, r: Ran)
    requires w.state.Active?
  {
    var g := w.state.generation;
    var last := w.Upcoming(if w.Loads(g) then 2 else 1).write;
    (r.outcome != PowerCut ==> (r.world.state == Active(g) <==> w.Upcoming(0).write == Failed || last == Done)) &&
    (r.outcome == Done <==>
       w.Upcoming(0).write == Done && w.Loads(g) && w.Upcoming(1).activation == Done && last == Done)
  }

  lemma WorkloadEndsActive(w: World, during: AppState)
    requires w.state.Active? && (during == Starting(w.state.generation) || during == Stopping(w.state.generation))
    ensures EndsActive(w, ChangeWorkload(w, during))
  {
    var s := WriteState(w, during).world;
    var x := RunWorkload(s, w.state.generation).world;
    assert s.Upcoming(0) == w.Upcoming(1);
    assert x.Upcoming(0) == w.Upcoming(if w.Loads(w.state.generation) then 2 else 1);
  }

  /** The worlds agree, except for generation `g` and what will happen. */
  ghost predicate Apart(before: World, after: World, g: nat) {
    before.state == after.state && before.generations - {g} == after.generations - {g}
  }

  lemma ApartSafe(before: World, after: World, g: nat)
    requires Safe(before) && Apart(before, after, g) && before.Current() != Some(g)
    ensures Safe(after)
  {
    assert before.Current().Some? ==> before.Current().value in before.generations - {g};
    assert after.generations - {g} == before.generations - {g};
  }

  lemma ApartKept(before: World, during: World, after: World, g: nat)
    requires Apart(before, during, g) && Kept(during, after) && !before.Has(g)
    ensures forall o: nat :: before.Has(o) ==>
      after.Has(o) && KeptGeneration(before.generations[o], after.generations[o])
  {
    assert before.generations == before.generations - {g};
    forall o: nat | before.Has(o)
      ensures after.Has(o) && KeptGeneration(before.generations[o], after.generations[o])
    {
      assert o in before.generations - {g} && o in during.generations - {g};
    }
  }

  lemma ChangeApart(w: World, v: World, g: nat, generation: Generation)
    requires Apart(w, v, g)
    ensures Apart(w, ChangeGeneration(v, g, generation).world, g)
    ensures v.Has(g) ==> Apart(w, WriteMetadata(v, g).world, g)
  {
  }

  /** The world in which an installation ends, or is ready to activate what it has installed. */
  lemma PrepareApart(w: World, g: nat, manifest: bool)
    ensures var r := Prepare(w, g, manifest); Apart(w, r.world, g)
  {
    var c := ChangeGeneration(w, g, Generation(false, None, false));
    ChangeApart(w, w, g, Generation(false, None, false));
    if c.outcome == Done {
      var p := ChangeGeneration(c.world, g, Generation(manifest, None, false));
      ChangeApart(w, c.world, g, Generation(manifest, None, false));
      ChangeApart(w, p.world, g, Generation(manifest, None, false));
      if p.outcome == Done {
        ChangeApart(w, WriteMetadata(p.world, g).world, g, Generation(manifest, Some(false), true));
      }
    }
  }

  lemma InstallSafe(w: World, g: nat, manifest: bool)
    requires Safe(w) && !w.Has(g)
    ensures var r := InstallAs(w, g, manifest);
      Safe(r.world) &&
      forall o: nat :: w.Has(o) ==> r.world.Has(o) && KeptGeneration(w.generations[o], r.world.generations[o])
  {
    var k := Prepare(w, g, manifest);
    PrepareApart(w, g, manifest);
    ApartSafe(w, k.world, g);
    ActivationSafe(k.world, g);
    ApartKept(w, k.world, InstallAs(w, g, manifest).world, g);
  }

  /** All generations have lower numbers than the new one, and are still as they were. */
  ghost predicate OnlyNew(before: World, after: World, number: nat) {
    forall g: nat :: before.Has(g) ==>
      g < number && after.Has(g) && KeptGeneration(before.generations[g], after.generations[g])
  }

  /** A new generation has a higher number than all others, and all others are still as they were. */
  lemma InstallIsNew(w: World, manifest: bool)
    requires Safe(w)
    ensures var r := Install(w, manifest);
      OnlyNew(w, r.world, NextNumber(w.generations.Keys)) && Safe(r.world)
  {
    InstallSafe(w, NextNumber(w.generations.Keys), manifest);
  }

  /** A generation only counts as complete when all of it is installed, however the installation ends. */
  lemma CompleteIsInstalled(w: World, g: nat, manifest: bool)
    requires !w.Has(g)
    ensures var v := InstallAs(w, g, manifest).world;
      v.Has(g) && v.generations[g].complete ==> v.generations[g].manifest == manifest && v.generations[g].metadata.Some?
  {
    var k := Prepare(w, g, manifest);
    if k.outcome == Done {
      SwitchFacts(k.world, k.world.Current(), Some(g), false);
    }
  }

  /** A removal that is cut off or fails leaves the generation as it was, or incomplete. */
  lemma InterruptedRemoval(w: World, g: nat)
    requires w.Has(g)
    ensures var v := RemoveGeneration(w, g).world;
      v.generations == w.generations || !v.Has(g) || !v.generations[g].complete
  {
  }

  ghost predicate NotCurrent(w: World, numbers: seq<nat>) {
    forall g :: g in numbers ==> w.Current() != Some(g)
  }

  lemma RemoveGenerationFacts(w: World, g: nat)
    requires w.Has(g)
    ensures var r := RemoveGeneration(w, g);
      r.world.state == w.state && r.world.generations - {g} == w.generations - {g} &&
      r.world.activated == w.activated && (r.outcome == Done ==> r.world.generations == w.generations - {g})
  {
  }

  lemma {:induction false} RemoveAllSafe(w: World, numbers: seq<nat>)
    requires Safe(w) && NotCurrent(w, numbers)
    ensures Safe(RemoveAll(w, numbers).world) && RemoveAll(w, numbers).world.state == w.state
    decreases |numbers|
  {
    if numbers != [] && w.Has(numbers[0]) {
      var r := RemoveGeneration(w, numbers[0]);
      RemoveGenerationFacts(w, numbers[0]);
      assert w.Current().Some? ==> w.Current().value in w.generations - {numbers[0]};
      RemoveAllSafe(r.world, numbers[1..]);
    } else if numbers != [] {
      RemoveAllSafe(w, numbers[1..]);
    }
  }

  lemma GcSafe(w: World, keep: nat, next: nat)
    requires Safe(w)
    ensures Safe(GcBelow(w, keep, next).world)
  {
    var r := RemoveAll(w, Ascending(NeverActivated(w), next));
    RemoveAllSafe(w, Ascending(NeverActivated(w), next));
    var others := Ascending(OthersActivated(w), next);
    if |others| > keep {
      assert NotCurrent(w, others);
      RemoveAllSafe(r.world, others[..|others| - keep]);
    }
  }

  lemma DeactivationSafe(w: World)
    requires Safe(w)
    ensures Safe(Deactivate(w).world)
    ensures Deactivate(w).outcome == Done ==> Deactivate(w).world.state == Inactive
  {
    SwitchFacts(w, w.Current(), None, false);
  }

  /** Removing an app removes nothing while a generation is current. */
  lemma RemovalAfterDeactivation(w: World)
    ensures var v := RemoveApp(w).world; Kept(w, v) || v.Current() == None
  {
    SwitchFacts(w, w.Current(), None, false);
    if w.Current().Some? && Deactivate(w).outcome == Done {
      DeactivatedIsInactive(w);
    }
  }

  lemma DeactivatedIsInactive(w: World)
    requires Deactivate(w).outcome == Done
    ensures Deactivate(w).world.state == Inactive
  {
  }

  lemma StepSafe(w: World, op: Operation)
    requires Safe(w)
    ensures Safe(Perform(w, op).world)
  {
    match op
    case Installation(manifest) => InstallIsNew(w, manifest);
    case Activation(g) => ActivationSafe(w, g);
    case Deactivation => DeactivationSafe(w);
    case RollingBack =>
      if w.Current().Some? {
        var previous := PreviousActivated(w.generations, w.Current().value);
        ActivationSafe(w, if previous.Some? then previous.value else 0);
      }
    case Start =>
      if w.state.Active? {
        WorkloadSafe(w, Starting(w.state.generation));
      }
    case Stop =>
      if w.state.Active? {
        WorkloadSafe(w, Stopping(w.state.generation));
      }
    case Recovery => RecoverySafe(w);
    case Collection(keep) => GcSafe(w, keep, NextNumber(w.generations.Keys));
    case Removal => DeactivationSafe(w);
  }

  /** Over all runs, whatever ends well, fails, or is cut off, the current generation exists and
      records an activation. */
  lemma {:induction false} AlwaysSafe(w: World, ops: seq<Operation>)
    requires Safe(w)
    ensures Safe(PerformAll(w, ops))
    decreases |ops|
  {
    if ops != [] {
      StepSafe(w, ops[0]);
      AlwaysSafe(Perform(w, ops[0]).world, ops[1..]);
    }
  }
}
