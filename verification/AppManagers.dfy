/** The app manager: every operation rewrites the state on disk step by step. */
module AppManagers {
  import opened Base
  import opened AppSteps
  import opened AppSafety
  import opened AppRuns
  import opened AppCollection
  import opened AppOutcomes

  class AppManager {
    /** The state file, the generation directories, and what the orchestrators have set up. */
    var state: AppState
    var generations: map<nat, Generation>
    var activated: set<nat>
    var events: seq<Event>

    ghost function View(): World
      reads this
    {
      World(state, generations, activated, events)
    }

    constructor (state: AppState, generations: map<nat, Generation>, activated: set<nat>, events: seq<Event>)
      ensures View() == World(state, generations, activated, events)
    {
      this.state, this.generations, this.activated, this.events := state, generations, activated, events;
    }

    method NextEvent() returns (e: Event)
      modifies this`events
      ensures e == old(View()).Next() && View() == old(View()).Later()
    {
      if events == [] {
        return Event(PowerCut, PowerCut, PowerCut, false, Generation(false, None, false), {});
      }
      e := events[0];
      events := events[1..];
    }

    method WriteState(newState: AppState) returns (r: Outcome)
      modifies this
      ensures Ran(View(), r) == AppSteps.WriteState(old(View()), newState)
    {
      var e := NextEvent();
      if e.write == Done || (e.write == PowerCut && e.effect) {
        state := newState;
      }
      return e.write;
    }

    function CurrentGeneration(): (r: Option<nat>)
      reads this
      ensures r == View().Current()
    {
      match state
      case Active(g) => Some(g)
      case Starting(g) => Some(g)
      case Stopping(g) => Some(g)
      case _ => None
    }

    method MarkActivated(g: nat) returns (r: Outcome)
      requires g in generations
      modifies this
      ensures Ran(View(), r) == AppSteps.MarkActivated(old(View()), g)
    {
      if generations[g].metadata == None {
        return Failed;
      }
      var e := NextEvent();
      if e.write == Done || (e.write == PowerCut && e.effect) {
        generations := generations[g := generations[g].(metadata := Some(true))];
      }
      return e.write;
    }

    method RunActivate(g: nat) returns (r: Outcome)
      modifies this
      ensures Ran(View(), r) == AppSteps.RunActivate(old(View()), g)
      ensures r == Done ==> NowActive(View(), g)
      ensures Kept(old(View()), View()) && (old(Safe(View())) ==> Safe(View()))
    {
      ActivateFacts(View(), g);
      if g !in generations || !generations[g].manifest {
        return Failed;
      }
      var e := NextEvent();
      if e.activation == Done || e.effect {
        activated := activated + {g};
      }
      if e.activation != Done {
        return e.activation;
      }
      r := MarkActivated(g);
      if r == Done {
        r := WriteState(Active(g));
      }
    }

    method RunDeactivate(g: nat) returns (r: Outcome)
      modifies this
      ensures Ran(View(), r) == AppSteps.RunDeactivate(old(View()), g)
      ensures generations == old(generations) && state == old(state)
      ensures r == Done && g in generations ==> g !in activated
    {
      DeactivateFacts(View(), g);
      if g !in generations {
        return Done;
      }
      if !generations[g].manifest {
        return Failed;
      }
      var e := NextEvent();
      if e.deactivation == Done || e.effect {
        activated := activated - {g};
      }
      return e.deactivation;
    }

    method RunWorkload(g: nat) returns (r: Outcome)
      modifies this
      ensures Ran(View(), r) == AppSteps.RunWorkload(old(View()), g)
    {
      if g !in generations || !generations[g].manifest {
        return Failed;
      }
      var e := NextEvent();
      return e.activation;
    }

    method FailWith(from: Option<nat>, to: nat) returns (r: Outcome)
      modifies this
      ensures Ran(View(), r) == AppSteps.FailWith(old(View()), from, to)
    {
      r := WriteState(Error(from, to));
      if r == Done {
        return Failed;
      }
    }

    /** Switch between generations, and go back when the new one cannot be activated. */
    method DoSwitch(from: Option<nat>, to: Option<nat>, recovery: bool) returns (r: Outcome)
      modifies this
      ensures Ran(View(), r) == AppSteps.DoSwitch(old(View()), from, to, recovery)
      ensures Kept(old(View()), View()) && (old(Safe(View())) ==> Safe(View()))
      ensures old(CanSwitch(View(), from, to)) ==> WellEnded(Ran(View(), r), from, to)
    {
      SwitchFacts(View(), from, to, recovery);
      if CanSwitch(View(), from, to) {
        SwitchExact(View(), from, to, recovery);
      }
      r := WriteState(Switching(from, to, recovery));
      if r != Done {
        return r;
      }
      if from.Some? {
        r := RunDeactivate(from.value);
        if r == PowerCut || (r == Failed && to == None) {
          return r;
        }
      }
      r := FinishSwitch(from, to);
    }

    /** The part of a switch after the old generation was dealt with. */
    method FinishSwitch(from: Option<nat>, to: Option<nat>) returns (r: Outcome)
      modifies this
      ensures Ran(View(), r) == SwitchTo(old(View()), from, to)
    {
      if to == None {
        r := WriteState(Inactive);
        return r;
      }
      r := RunActivate(to.value);
      if r != Failed {
        return r;
      }
      r := RunDeactivate(to.value);
      if r == PowerCut {
        return r;
      }
      if from.Some? && from.value in generations && generations[from.value].complete {
        r := RunActivate(from.value);
        if r == Failed {
          r := FailWith(from, to.value);
        }
        return r;
      }
      r := FailWith(from, to.value);
    }

    method RecoverApp() returns (r: Outcome)
      modifies this
      ensures Ran(View(), r) == Recover(old(View()))
      ensures Kept(old(View()), View()) && (old(Safe(View())) ==> Safe(View()))
      ensures old(state.Switching? && Ready(View()) && Exact(View())) ==>
        WellEnded(Ran(View(), r), old(state.from), old(state.to))
    {
      RecoveryKept(View());
      match state {
        case Switching(from, to, _) =>
          r := DoSwitch(from, to, true);
        case Starting(g) =>
          r := RunWorkload(g);
          if r != PowerCut {
            r := WriteState(Active(g));
          }
        case Stopping(g) =>
          r := RunWorkload(g);
          if r != PowerCut {
            r := WriteState(Active(g));
          }
        case Error(from, failed) =>
          r := RunActivate(if from.Some? then from.value else failed);
          if r == Failed {
            if from.Some? {
              r := RunActivate(failed);
            }
            if r == Failed {
              r := Done;
            }
          }
        case _ =>
          return Done;
      }
    }

    method ActivateGeneration(g: nat) returns (r: Outcome)
      modifies this
      ensures Ran(View(), r) == AppSteps.ActivateGeneration(old(View()), g)
      ensures old(Safe(View())) ==> Safe(View())
      ensures Activates(old(View()), g, Ran(View(), r))
    {
      ActivationEnds(View(), g);
      if Safe(View()) {
        StepSafe(View(), Activation(g));
      }
      if g !in generations || !generations[g].complete {
        return Failed;
      }
      r := DoSwitch(CurrentGeneration(), Some(g), false);
    }

    method Deactivate() returns (r: Outcome)
      modifies this
      ensures Ran(View(), r) == AppSteps.Deactivate(old(View()))
      ensures old(Safe(View())) ==> Safe(View())
      ensures r == Done ==> state == Inactive
      ensures old(Settled(View())) && r == Done ==> activated == {}
    {
      if Settled(View()) {
        DeactivationEnds(View());
      }
      if Safe(View()) {
        StepSafe(View(), Deactivation);
      }
      var current := CurrentGeneration();
      if current == None {
        return Failed;
      }
      r := DoSwitch(current, None, false);
    }

    /** Start or stop the workload. The state is back to active whatever the outcome. */
    method ChangeWorkload(during: AppState) returns (r: Outcome)
      requires state.Active? && (during == Starting(state.generation) || during == Stopping(state.generation))
      modifies this
      ensures Ran(View(), r) == AppSteps.ChangeWorkload(old(View()), during)
      ensures EndsActive(old(View()), Ran(View(), r))
    {
      WorkloadEndsActive(View(), during);
      var active := state;
      r := WriteState(during);
      if r != Done {
        return r;
      }
      r := RunWorkload(active.generation);
      if r == PowerCut {
        return r;
      }
      var written := WriteState(active);
      if written != Done {
        return written;
      }
    }

    method StartApp() returns (r: Outcome)
      modifies this
      ensures Ran(View(), r) == AppSteps.StartApp(old(View()))
      ensures old(Safe(View())) ==> Safe(View())
      ensures old(state).Active? ==> EndsActive(old(View()), Ran(View(), r))
    {
      if Safe(View()) {
        StepSafe(View(), Start);
      }
      if !state.Active? {
        return Failed;
      }
      r := ChangeWorkload(Starting(state.generation));
    }

    method StopApp() returns (r: Outcome)
      modifies this
      ensures Ran(View(), r) == AppSteps.StopApp(old(View()))
      ensures old(Safe(View())) ==> Safe(View())
      ensures old(state).Active? ==> EndsActive(old(View()), Ran(View(), r))
    {
      if Safe(View()) {
        StepSafe(View(), Stop);
      }
      if !state.Active? {
        return Failed;
      }
      r := ChangeWorkload(Stopping(state.generation));
    }

    /** Go back to the most recent generation before the current one that was activated before. */
    method Rollback() returns (r: Outcome)
      modifies this
      ensures Ran(View(), r) == AppSteps.Rollback(old(View()))
      ensures old(Safe(View())) ==> Safe(View())
      ensures GoesBack(old(View()), Ran(View(), r))
    {
      RollbackEnds(View());
      if Safe(View()) {
        StepSafe(View(), RollingBack);
      }
      var current := CurrentGeneration();
      if current == None {
        return Failed;
      }
      var n := current.value;
      while 0 < n && (n - 1 !in generations || !generations[n - 1].Recorded())
        invariant PreviousActivated(generations, n) == PreviousActivated(generations, current.value)
        invariant View() == old(View())
      {
        n := n - 1;
      }
      if n == 0 {
        return Failed;
      }
      r := ActivateGeneration(n - 1);
    }

    /** Determine the number of the next generation from the directory entries, in any order. */
    method NextGenerationNumber() returns (n: nat)
      ensures n == NextNumber(generations.Keys)
    {
      var highest, rest := 0, generations.Keys;
      while rest != {}
        invariant rest <= generations.Keys
        invariant forall g :: g in generations && g !in rest ==> g <= highest
        invariant highest == 0 || highest in generations
      {
        var g :| g in rest;
        highest, rest := Max(highest, g), rest - {g};
      }
      return highest + 1;
    }

    method ChangeGeneration(g: nat, generation: Generation) returns (r: Outcome)
      modifies this
      ensures Ran(View(), r) == AppSteps.ChangeGeneration(old(View()), g, generation)
    {
      var e := NextEvent();
      if e.write == Done || e.effect {
        generations := generations[g := generation];
      }
      return e.write;
    }

    method WriteMetadata(g: nat) returns (r: Outcome)
      requires g in generations
      modifies this
      ensures Ran(View(), r) == AppSteps.WriteMetadata(old(View()), g)
    {
      var e := NextEvent();
      if e.write == Done || (e.write == PowerCut && e.effect) {
        generations := generations[g := generations[g].(metadata := Some(false))];
      }
      return e.write;
    }

    /** Create a new generation, write the payloads and the metadata, and activate it. */
    method InstallNew(manifest: bool) returns (r: Outcome)
      modifies this
      ensures Ran(View(), r) == Install(old(View()), manifest)
    {
      var g := NextGenerationNumber();
      r := ChangeGeneration(g, Generation(false, None, false));
      if r == Done {
        r := ChangeGeneration(g, Generation(manifest, None, false));
      }
      if r == Done {
        r := WriteMetadata(g);
      }
      if r == Done {
        r := ChangeGeneration(g, Generation(manifest, Some(false), true));
      }
      if r == Done {
        r := ActivateGeneration(g);
      }
    }

    /** Install into a new generation: nothing else is overwritten. */
    method InstallGeneration(manifest: bool) returns (r: Outcome)
      modifies this
      ensures Ran(View(), r) == Install(old(View()), manifest)
      ensures old(Safe(View())) ==>
        Safe(View()) && OnlyNew(old(View()), View(), NextNumber(old(generations).Keys))
      ensures Installs(old(View()), NextNumber(old(generations).Keys), manifest, Ran(View(), r))
    {
      InstallationEnds(View(), NextNumber(generations.Keys), manifest);
      if Safe(View()) {
        InstallIsNew(View(), manifest);
      }
      r := InstallNew(manifest);
    }

    /** Remove a generation, the marker that it is complete first. */
    method RemoveGeneration(g: nat) returns (r: Outcome)
      requires g in generations
      modifies this
      ensures Ran(View(), r) == AppSteps.RemoveGeneration(old(View()), g)
      ensures generations == old(generations) || g !in generations || !generations[g].complete
    {
      InterruptedRemoval(View(), g);
      if generations[g].complete {
        r := ChangeGeneration(g, generations[g].(complete := false));
        if r != Done {
          return r;
        }
      }
      var e := NextEvent();
      if e.write == Done || e.effect {
        generations := generations - {g};
      } else {
        generations := generations[g := Remains(generations[g], e.left)];
      }
      return e.write;
    }

    method RemoveGenerations(numbers: seq<nat>) returns (r: Outcome)
      modifies this
      ensures Ran(View(), r) == RemoveAll(old(View()), numbers)
    {
      var rest := numbers;
      while rest != []
        invariant RemoveAll(View(), rest) == RemoveAll(old(View()), numbers)
        decreases |rest|
      {
        if rest[0] in generations {
          r := RemoveGeneration(rest[0]);
          if r == PowerCut {
            return r;
          }
        }
        rest := rest[1..];
      }
      return Done;
    }

    /** Remove generations that were never activated, and all but the last `keep` of the others. */
    method RemoveOld(keep: nat) returns (r: Outcome)
      modifies this
      ensures Ran(View(), r) == Gc(old(View()), keep)
    {
      var current := CurrentGeneration();
      var next := NextGenerationNumber();
      var unused := set g | g in generations && !generations[g].Recorded();
      var used := set g | g in generations && generations[g].Recorded() && current != Some(g);
      assert unused == NeverActivated(View()) && used == OthersActivated(View());
      var others := Ascending(used, next);
      r := RemoveGenerations(Ascending(unused, next));
      if r != PowerCut && |others| > keep {
        r := RemoveGenerations(others[..|others| - keep]);
      }
    }

    /** Collect old generations. If removals end well, exactly the current generation and the `keep` other
        ones with the highest numbers among those with recorded activations are left. */
    method CollectGarbage(keep: nat) returns (r: Outcome)
      modifies this
      ensures Ran(View(), r) == Gc(old(View()), keep)
      ensures old(Safe(View())) ==> Safe(View())
      ensures r == Done && old(Safe(View()) && WritesWell(View())) ==> Collected(old(View()), View(), keep)
    {
      if Safe(View()) {
        GcSafe(View(), keep, NextNumber(generations.Keys));
        if WritesWell(View()) && Gc(View(), keep).outcome == Done {
          GcExact(View(), keep);
        }
      }
      r := RemoveOld(keep);
    }

    /** Remove the app, which is deactivated first. */
    method RemoveApp() returns (r: Outcome)
      modifies this
      ensures Ran(View(), r) == AppSteps.RemoveApp(old(View()))
      ensures old(Safe(View())) ==> Safe(View())
    {
      if Safe(View()) {
        StepSafe(View(), Removal);
      }
      if CurrentGeneration().Some? {
        r := Deactivate();
        if r != Done {
          return r;
        }
      }
      var e := NextEvent();
      if e.write == Done {
        state, generations := Inactive, map[];
      } else {
        if e.effect {
          state := Inactive;
        }
        generations := map g | g in generations && g !in e.gone :: Remains(generations[g], e.left);
      }
      return e.write;
    }
  }
}
