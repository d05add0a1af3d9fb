/** How operations on an app end: which generation is active afterwards, and what is set up. */
module AppOutcomes {
  import opened Base
  import opened AppSteps
  import opened AppSafety
  import opened AppResidue

  /** How many steps it takes to deactivate a generation. */
  function StepsDown(w: World, g: nat): nat {
    if w.Loads(g) then 1 else 0
  }

  lemma OneLater(w: World, v: World, u: World, k: nat)
    requires AfterSteps(w, v, k) && u.events == v.Later().events && Kept(v, u)
    ensures AfterSteps(w, u, k + 1)
  {
  }

  lemma RecordedAfter(w: World, v: World, state: AppState, k: nat)
    requires AfterSteps(w, v, k)
    ensures AfterSteps(w, WriteState(v, state).world, k + 1) && WriteState(v, state).outcome == w.Upcoming(k).write
  {
    OneLater(w, v, WriteState(v, state).world, k);
  }

  lemma DeactivatedAfter(w: World, v: World, g: nat, k: nat)
    requires AfterSteps(w, v, k)
    ensures AfterSteps(w, RunDeactivate(v, g).world, k + StepsDown(w, g))
    ensures RunDeactivate(v, g).world.state == v.state
  {
    assert v.Loads(g) <==> w.Loads(g);
    if w.Loads(g) {
      OneLater(w, v, RunDeactivate(v, g).world, k);
    }
  }

  /** There is a generation to go back to. */
  predicate CanGoBack(w: World, from: Option<nat>) {
    from.Some? && w.Has(from.value) && w.generations[from.value].complete
  }

  /** The step at which a switch begins to set up the new generation; and, if that fails, at which it begins to
      set up the old one; and, if that fails as well, at which it records the error. */
  function SetUpAt(w: World, from: Option<nat>): nat {
    1 + if from.Some? then StepsDown(w, from.value) else 0
  }

  function BackAt(w: World, from: Option<nat>, g: nat): nat {
    SetUpAt(w, from) + Steps(w, g, SetUpAt(w, from)) + StepsDown(w, g)
  }

  function GivenUpAt(w: World, from: Option<nat>, g: nat): nat {
    BackAt(w, from, g) + if CanGoBack(w, from) then Steps(w, from.value, BackAt(w, from, g)) else 0
  }

  /** How a switch to generation `g` ends, unless it is cut off. */
  ghost predicate EndsAs(w: World, from: Option<nat>, g: nat, recovery: bool, r: Ran) {
    if w.Upcoming(0).write == Failed then r == Ran(w.Later(), Failed)
    else if !Fails(w, g, SetUpAt(w, from)) then r.outcome == Done && r.world.state == Active(g)
    else if CanGoBack(w, from) && !Fails(w, from.value, BackAt(w, from, g)) then
      r.outcome == Done && r.world.state == Active(from.value)
    else
      r.outcome == Failed &&
      r.world.state == if w.Upcoming(GivenUpAt(w, from, g)).write == Done then Error(from, g)
                       else Switching(from, Some(g), recovery)
  }

  lemma GoBackEnds(w: World, v: World, from: Option<nat>, g: nat, k: nat)
    requires AfterSteps(w, v, k) && GoBack(v, from, g).outcome != PowerCut
    ensures var r := GoBack(v, from, g);
      if CanGoBack(w, from) && !Fails(w, from.value, k) then r.outcome == Done && r.world.state == Active(from.value)
      else
        var end := k + if CanGoBack(w, from) then Steps(w, from.value, k) else 0;
        r.outcome == Failed && r.world.state == if w.Upcoming(end).write == Done then Error(from, g) else v.state
  {
    assert CanGoBack(w, from) <==> CanGoBack(v, from);
    if CanGoBack(w, from) {
      var b := RunActivate(v, from.value).world;
      FailsWhen(w, v, from.value, k);
      ActivateFacts(v, from.value);
      if Fails(w, from.value, k) {
        RecordedAfter(w, b, Error(from, g), k + Steps(w, from.value, k));
        WriteFacts(b, Error(from, g));
      }
    } else {
      RecordedAfter(w, v, Error(from, g), k);
      WriteFacts(v, Error(from, g));
    }
  }

  /** A switch that is not cut off ends with the new generation exactly if that can be set up; otherwise with
      the old one exactly if that is complete and can be set up again; and otherwise it fails, and the error is
      recorded if possible. Whether the old generation can be deactivated does not matter. */
  lemma SwitchEnds(w: World, from: Option<nat>, g: nat, recovery: bool)
    requires DoSwitch(w, from, Some(g), recovery).outcome != PowerCut
    ensures EndsAs(w, from, g, recovery, DoSwitch(w, from, Some(g), recovery))
  {
    var s := WriteState(w, Switching(from, Some(g), recovery)).world;
    assert AfterSteps(w, w, 0);
    RecordedAfter(w, w, Switching(from, Some(g), recovery), 0);
    if w.Upcoming(0).write == Done {
      var d := if from.Some? then RunDeactivate(s, from.value).world else s;
      if from.Some? {
        DeactivatedAfter(w, s, from.value, 1);
      }
      SwitchToEnds(w, d, from, g, recovery);
    }
  }

  lemma SwitchToEnds(w: World, d: World, from: Option<nat>, g: nat, recovery: bool)
    requires AfterSteps(w, d, SetUpAt(w, from)) && d.state == Switching(from, Some(g), recovery)
    requires w.Upcoming(0).write == Done && SwitchTo(d, from, Some(g)).outcome != PowerCut
    ensures EndsAs(w, from, g, recovery, SwitchTo(d, from, Some(g)))
  {
    var a := RunActivate(d, g);
    FailsWhen(w, d, g, SetUpAt(w, from));
    ActivateFacts(d, g);
    if a.outcome == Failed {
      UndoEnds(w, a.world, from, g, recovery);
    }
  }

  lemma UndoEnds(w: World, a: World, from: Option<nat>, g: nat, recovery: bool)
    requires AfterSteps(w, a, SetUpAt(w, from) + Steps(w, g, SetUpAt(w, from))) && Fails(w, g, SetUpAt(w, from))
    requires w.Upcoming(0).write == Done && a.state == Switching(from, Some(g), recovery)
    requires UndoSwitch(a, from, g).outcome != PowerCut
    ensures EndsAs(w, from, g, recovery, UndoSwitch(a, from, g))
  {
    DeactivatedAfter(w, a, g, SetUpAt(w, from) + Steps(w, g, SetUpAt(w, from)));
    GoBackEnds(w, RunDeactivate(a, g).world, from, g, BackAt(w, from, g));
  }

  /** The generation that is active, also while its workload is started or stopped. */
  function ActiveIn(w: World): (g: Option<nat>)
    ensures g == w.Current()
  {
    match w.state
    case Active(g) => Some(g)
    case Starting(g) => Some(g)
    case Stopping(g) => Some(g)
    case _ => None
  }

  /** No switch is under way and none has failed, and exactly the current generation is set up, if there is
      one. */
  ghost predicate Settled(w: World) {
    (ActiveIn(w).Some? || w.state.Inactive?) && Ready(w) && Exact(w)
  }

  lemma SettledCurrent(w: World)
    requires Settled(w)
    ensures w.activated == Named(ActiveIn(w)) && (ActiveIn(w).Some? ==> w.Loads(ActiveIn(w).value))
  {
  }

  /** From a settled state, a switch that ends well ends in one: with one of its two generations alone, or with
      nothing. */
  lemma SettledSwitch(w: World, to: Option<nat>)
    requires Settled(w) && (ActiveIn(w).Some? || to.Some?)
    ensures var r := DoSwitch(w, ActiveIn(w), to, false);
      r.outcome == Done ==>
        Settled(r.world) && OnTheWay(r.world, ActiveIn(w), to) && (to == None ==> r.world.state == Inactive) &&
        (r.world.state.Inactive? || r.world.state.Active?)
  {
    var from := ActiveIn(w);
    var s := WriteState(w, Switching(from, to, false));
    SettledCurrent(w);
    if s.outcome == Done {
      var d := if from.Some? then RunDeactivate(s.world, from.value) else s;
      if from.Some? {
        DeactivateFacts(s.world, from.value);
      }
      if d.outcome != PowerCut {
        SwitchToExact(d.world, from, to);
      }
    }
  }

  /** Generation `g` can be set up by any orchestrator that works. */
  predicate Sound(w: World, g: nat) {
    w.Loads(g) && w.generations[g].metadata.Some? && w.generations[g].complete
  }

  /** The given generation is active, and exactly it is set up. */
  ghost predicate Alone(w: World, g: nat) {
    w.state == Active(g) && w.activated == {g}
  }

  /** What activating generation `g` promises. A generation that is not complete is rejected, and nothing
      happens. Otherwise the current generation is switched from, with the outcomes of a switch. If that ends
      well, the new generation is active and alone, or the one that was current. */
  ghost predicate Activates(w: World, g: nat, r: Ran) {
    if !w.Has(g) || !w.generations[g].complete then r == Ran(w, Failed)
    else
      (r.outcome != PowerCut ==> EndsAs(w, ActiveIn(w), g, false, r)) &&
      (Settled(w) && r.outcome == Done ==>
         Ready(r.world) && (Alone(r.world, g) || (ActiveIn(w).Some? && Alone(r.world, ActiveIn(w).value))))
  }

  lemma ActivationEnds(w: World, g: nat)
    ensures Activates(w, g, ActivateGeneration(w, g))
  {
    if w.Has(g) && w.generations[g].complete {
      if DoSwitch(w, ActiveIn(w), Some(g), false).outcome != PowerCut {
        SwitchEnds(w, ActiveIn(w), g, false);
      }
      if Settled(w) {
        SettledSwitch(w, Some(g));
      }
    }
  }

  /** Without trouble, a sound generation is active and alone after it is activated; and if it cannot be
      loaded, the sound generation that was current is. */
  lemma ActivationArrivesAlone(w: World, g: nat)
    requires Settled(w) && AllWell(w, 5)
    ensures var r := ActivateGeneration(w, g);
      (Sound(w, g) ==> r.outcome == Done && Alone(r.world, g)) &&
      (w.Has(g) && w.generations[g].complete && !w.Loads(g) && ActiveIn(w).Some? && Sound(w, ActiveIn(w).value) ==>
         r.outcome == Done && Alone(r.world, ActiveIn(w).value))
  {
    ActivationEnds(w, g);
    SettledCurrent(w);
    if Sound(w, g) {
      SwitchSucceeds(w, ActiveIn(w), Some(g), false);
    } else if w.Has(g) && w.generations[g].complete && !w.Loads(g) && ActiveIn(w).Some? &&
              Sound(w, ActiveIn(w).value) {
      BrokenIsRolledBack(w, ActiveIn(w).value, g, false);
    }
  }

  /** Generation `p` is the last one before `n` with a recorded activation. */
  ghost predicate IsPrevious(w: World, n: nat, p: nat) {
    p < n && Recorded(w, p) && forall g: nat :: p < g < n ==> !Recorded(w, g)
  }

  /** What going back promises: without a current generation, or one before it that was active, nothing
      happens. Otherwise the last one before it that was active is activated. */
  ghost predicate GoesBack(w: World, r: Ran) {
    if ActiveIn(w) == None || forall g: nat :: g < ActiveIn(w).value ==> !Recorded(w, g) then r == Ran(w, Failed)
    else exists p: nat :: IsPrevious(w, ActiveIn(w).value, p) && Activates(w, p, r)
  }

  lemma RollbackEnds(w: World)
    ensures GoesBack(w, Rollback(w))
  {
    if ActiveIn(w).Some? {
      var previous := PreviousActivated(w.generations, ActiveIn(w).value);
      if previous.Some? {
        assert IsPrevious(w, ActiveIn(w).value, previous.value);
        ActivationEnds(w, previous.value);
      }
    }
  }

  lemma PreviousIs(w: World, n: nat, p: nat)
    requires IsPrevious(w, n, p)
    ensures PreviousActivated(w.generations, n) == Some(p)
  {
    var r := PreviousActivated(w.generations, n);
    assert p in w.generations && w.generations[p].Recorded();
    if r.Some? && r.value != p {
      assert Recorded(w, r.value);
    }
  }

  /** Without trouble, the previous generation is active and alone after going back, if it is sound. */
  lemma RollbackArrives(w: World, p: nat)
    requires Settled(w) && AllWell(w, 5) && ActiveIn(w).Some? && IsPrevious(w, ActiveIn(w).value, p) && Sound(w, p)
    ensures Rollback(w).outcome == Done && Alone(Rollback(w).world, p)
  {
    PreviousIs(w, ActiveIn(w).value, p);
    ActivationArrivesAlone(w, p);
  }

  /** Deactivating a settled app leaves nothing set up if it ends well, which it does without trouble. */
  lemma DeactivationEnds(w: World)
    requires Settled(w)
    ensures var r := Deactivate(w);
      (ActiveIn(w) == None ==> r == Ran(w, Failed)) &&
      (r.outcome == Done ==> r.world.state == Inactive && r.world.activated == {} && Ready(r.world)) &&
      (ActiveIn(w).Some? && AllWell(w, 5) ==> r.outcome == Done)
  {
    if ActiveIn(w).Some? {
      SettledCurrent(w);
      SettledSwitch(w, None);
      if AllWell(w, 5) {
        SwitchSucceeds(w, ActiveIn(w), None, false);
      }
    }
  }

  /** Recovery from a start or a stop that was interrupted repeats it, and makes the generation active again
      exactly if that can be recorded, whatever the orchestrator does. Nothing else changes. */
  lemma WorkloadRecovered(w: World, g: nat)
    requires (w.state == Starting(g) || w.state == Stopping(g)) && Recover(w).outcome != PowerCut
    ensures var r, last := Recover(w), w.Upcoming(StepsDown(w, g)).write;
      r.outcome == last && r.world.state == (if last == Done then Active(g) else w.state) &&
      r.world.generations == w.generations && r.world.activated == w.activated &&
      r.world.events == RunWorkload(w, g).world.Later().events
  {
    var x := RunWorkload(w, g).world;
    assert x.Upcoming(0) == w.Upcoming(StepsDown(w, g));
  }

  /** Recovery of a switch to a generation ends as a switch does, and is recorded as a recovery. */
  lemma SwitchRecovered(w: World, g: nat)
    requires w.state.Switching? && w.state.to == Some(g) && Recover(w).outcome != PowerCut
    ensures EndsAs(w, w.state.from, g, true, Recover(w))
  {
    SwitchEnds(w, w.state.from, g, true);
  }

  /** While a workload is started or stopped, the state says which, until the generation is active again; so that
      it can be repeated when it is cut off. */
  lemma WorkloadCutOff(w: World, g: nat)
    requires w.state == Active(g)
    ensures var r := StartApp(w).world;
      (r.state == Active(g) || r.state == Starting(g)) && r.generations == w.generations && r.activated == w.activated
    ensures var r := StopApp(w).world;
      (r.state == Active(g) || r.state == Stopping(g)) && r.generations == w.generations && r.activated == w.activated
    ensures var recorded, unfinished := w.Upcoming(0).write == Done, w.Loads(g) && w.Upcoming(1).activation == PowerCut;
      recorded && unfinished ==> StartApp(w).world.state == Starting(g) && StopApp(w).world.state == Stopping(g)
  {
    WorkloadStates(w, Starting(g));
    WorkloadStates(w, Stopping(g));
  }

  lemma WorkloadStates(w: World, during: AppState)
    requires w.state.Active? && (during == Starting(w.state.generation) || during == Stopping(w.state.generation))
    ensures var r := ChangeWorkload(w, during).world;
      (r.state == w.state || r.state == during) && r.generations == w.generations && r.activated == w.activated
    ensures w.Upcoming(0).write == Done && w.Loads(w.state.generation) && w.Upcoming(1).activation == PowerCut ==>
      ChangeWorkload(w, during).world.state == during
  {
    var s := WriteState(w, during).world;
    assert s.Upcoming(0) == w.Upcoming(1);
    WriteFacts(w, during);
    WriteFacts(RunWorkload(s, w.state.generation).world, w.state);
  }

  /** Without an interrupted operation, recovery does nothing. */
  lemma NothingToRecover(w: World)
    requires w.state.Inactive? || w.state.Active?
    ensures Recover(w) == Ran(w, Done)
  {
  }

  /** How many generations there are besides does not matter: all is prepared for generation `g`. */
  ghost predicate Prepared(w: World, v: World, g: nat, manifest: bool) {
    v.state == w.state && v.activated == w.activated && v.generations - {g} == w.generations - {g} && v.Has(g) &&
    v.generations[g] == Generation(manifest, Some(false), true) &&
    v.events == if |w.events| < 4 then [] else w.events[4..]
  }

  lemma PreparationEnds(w: World, g: nat, manifest: bool)
    requires Prepare(w, g, manifest).outcome == Done
    ensures Prepared(w, Prepare(w, g, manifest).world, g, manifest)
  {
    var c := ChangeGeneration(w, g, Generation(false, None, false));
    var p := ChangeGeneration(c.world, g, Generation(manifest, None, false));
    var m := WriteMetadata(p.world, g);
    assert c.outcome == p.outcome == m.outcome == Done;
    assert m.world.generations[g] == Generation(manifest, Some(false), false);
  }

  lemma PreparationArrives(w: World, g: nat, manifest: bool)
    requires AllWell(w, 4)
    ensures Prepare(w, g, manifest).outcome == Done
  {
    var c := ChangeGeneration(w, g, Generation(false, None, false));
    assert c.outcome == Done && AllWell(c.world, 3);
    var p := ChangeGeneration(c.world, g, Generation(manifest, None, false));
    assert p.outcome == Done && AllWell(p.world, 2);
    var m := WriteMetadata(p.world, g);
    assert m.outcome == Done && AllWell(m.world, 1);
  }

  lemma PreparedSettled(w: World, v: World, g: nat, manifest: bool)
    requires Prepared(w, v, g, manifest) && Settled(w) && !w.Has(g)
    ensures Settled(v)
  {
    forall o | o in v.activated
      ensures v.Loads(o)
    {
      assert o in w.activated && w.Loads(o) && o in w.generations - {g} && o in v.generations - {g};
    }
    assert forall e :: e in v.events ==> e in w.events;
    assert Ready(v) && ActiveIn(v) == ActiveIn(w);
  }

  /** What installing generation `g` promises: if it ends well, the new generation is complete; and either it
      has been activated, or the one that was current is active again, alone in any case. */
  ghost predicate Installs(w: World, g: nat, manifest: bool, r: Ran) {
    r.outcome == Done ==>
      Complete(r.world, g, manifest) &&
      (Settled(w) ==>
         Ready(r.world) && (Alone(r.world, g) || (ActiveIn(w).Some? && Alone(r.world, ActiveIn(w).value))))
  }

  ghost predicate Complete(w: World, g: nat, manifest: bool) {
    w.Has(g) && w.generations[g].complete && w.generations[g].manifest == manifest && w.generations[g].metadata.Some?
  }

  lemma InstallationEnds(w: World, g: nat, manifest: bool)
    requires !w.Has(g)
    ensures Installs(w, g, manifest, InstallAs(w, g, manifest))
  {
    var k := Prepare(w, g, manifest);
    if k.outcome == Done {
      PreparationEnds(w, g, manifest);
      ActivationEnds(k.world, g);
      SwitchFacts(k.world, k.world.Current(), Some(g), false);
      if Settled(w) {
        PreparedSettled(w, k.world, g, manifest);
      }
      assert InstallAs(w, g, manifest) == ActivateGeneration(k.world, g);
      assert KeptGeneration(k.world.generations[g], InstallAs(w, g, manifest).world.generations[g]);
      assert Complete(InstallAs(w, g, manifest).world, g, manifest);
      assert Activates(k.world, g, InstallAs(w, g, manifest));
    }
  }

  /** Without trouble, a generation with a manifest is active and alone after it is installed; and one without
      is not, but the sound generation that was current. */
  lemma InstallationArrives(w: World, g: nat, manifest: bool)
    requires !w.Has(g) && Settled(w) && AllWell(w, 9)
    ensures var r := InstallAs(w, g, manifest);
      (manifest ==> r.outcome == Done && Alone(r.world, g)) &&
      (!manifest && ActiveIn(w).Some? && Sound(w, ActiveIn(w).value) ==>
         r.outcome == Done && Alone(r.world, ActiveIn(w).value))
  {
    var v := Prepare(w, g, manifest).world;
    PreparationArrives(w, g, manifest);
    PreparationEnds(w, g, manifest);
    PreparedSettled(w, v, g, manifest);
    assert AllWell(v, 5);
    if ActiveIn(w).Some? {
      var f := ActiveIn(w).value;
      assert w.Has(f) ==> f in w.generations - {g} && f in v.generations - {g};
    }
    ActivationArrivesAlone(v, g);
  }
}
