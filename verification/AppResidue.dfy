/** Where an app operation does less than it seems: exactly when resources or an error stay behind. */
module AppResidue {
  import opened Base
  import opened AppSteps
  import opened AppSafety

  /** Activating a generation fails, from step `k` on: it cannot be loaded, or the orchestrator fails, or
      the activation or the new state cannot be recorded. */
  predicate Fails(w: World, g: nat, k: nat) {
    !w.Loads(g) || w.Upcoming(k).activation == Failed ||
    (w.Upcoming(k).activation == Done &&
     (w.generations[g].metadata == None || w.Upcoming(k + 1).write == Failed ||
      (w.Upcoming(k + 1).write == Done && w.Upcoming(k + 2).write == Failed)))
  }

  /** A failing activation leaves the generation set up. */
  predicate SetsUp(w: World, g: nat, k: nat) {
    w.Loads(g) && (w.Upcoming(k).activation == Done || w.Upcoming(k).effect)
  }

  /** How many steps a failing activation takes. */
  function Steps(w: World, g: nat, k: nat): nat {
    if !w.Loads(g) then 0
    else if w.Upcoming(k).activation == Failed || w.generations[g].metadata == None then 1
    else if w.Upcoming(k + 1).write == Failed then 2
    else 3
  }

  /** The world after `k` steps, up to the generations and their resources. */
  ghost predicate AfterSteps(w: World, v: World, k: nat) {
    v.events == (if k <= |w.events| then w.events[k..] else []) && Kept(w, v)
  }

  lemma FailsWhen(w: World, v: World, g: nat, k: nat)
    requires AfterSteps(w, v, k)
    ensures var a := RunActivate(v, g);
      (a.outcome == Failed <==> Fails(w, g, k)) &&
      (a.outcome == Failed ==>
         AfterSteps(w, a.world, k + Steps(w, g, k)) &&
         a.world.activated == v.activated + (if SetsUp(w, g, k) then {g} else {}))
  {
    assert v.Upcoming(0) == w.Upcoming(k) && v.Upcoming(1) == w.Upcoming(k + 1) && v.Upcoming(2) == w.Upcoming(k + 2);
    assert g in v.generations ==> KeptGeneration(w.generations[g], v.generations[g]);
    FailsNow(v, g);
  }

  lemma FailsNow(v: World, g: nat)
    ensures var a := RunActivate(v, g);
      (a.outcome == Failed <==> Fails(v, g, 0)) &&
      (a.outcome == Failed ==>
         AfterSteps(v, a.world, Steps(v, g, 0)) &&
         a.world.activated == v.activated + (if SetsUp(v, g, 0) then {g} else {}))
  {
    ActivateFacts(v, g);
    if v.Loads(g) {
      var o := Orchestrate(v, g).world;
      assert o.Upcoming(0) == v.Upcoming(1) && o.Upcoming(1) == v.Upcoming(2);
    }
  }

  /** The generation that recovery from the error state tries first. */
  function FirstTried(w: World): nat
    requires w.state.Error?
  {
    if w.state.from.Some? then w.state.from.value else w.state.failed
  }

  /** Recovery from the error state never fails, whether or not the app is still in the error state
      afterwards. It is, exactly if no generation that is tried can be activated. */
  lemma RecoveryInError(w: World)
    requires w.state.Error?
    ensures Recover(w).outcome != Failed
    ensures Recover(w).outcome == Done && Recover(w).world.state.Error? <==> (
      Fails(w, FirstTried(w), 0) &&
      (w.state.from.Some? ==> Fails(w, w.state.failed, Steps(w, FirstTried(w), 0))))
  {
    var first := FirstTried(w);
    var a := RunActivate(w, first);
    FailsNow(w, first);
    ActivateFacts(w, first);
    if a.outcome != Failed {
      FirstSucceeds(w);
    } else {
      SecondTried(w);
      if w.state.from.Some? {
        FailsWhen(w, a.world, w.state.failed, Steps(w, first, 0));
        ActivateFacts(a.world, w.state.failed);
      }
    }
  }

  lemma SecondTried(w: World)
    requires w.state.Error? && RunActivate(w, FirstTried(w)).outcome == Failed
    ensures var a := RunActivate(w, FirstTried(w)).world;
      var b := RunActivate(a, w.state.failed);
      Recover(w) == if w.state.from == None then Ran(a, Done)
                    else if b.outcome == Failed then Ran(b.world, Done) else b
  {
  }

  /** Recovery from the error state only ever sets up resources. When it activates a generation, that is
      the one tried first, or the one that failed if that attempt fails; and the resources are exactly right
      if and only if no other generation was set up before, nor by a failing first attempt. */
  lemma ErrorRecoveryExact(w: World)
    requires w.state.Error? && Recover(w).outcome == Done && !Recover(w).world.state.Error?
    ensures var r, first := Recover(w).world, FirstTried(w);
      var g := if Fails(w, first, 0) then w.state.failed else first;
      r.state == Active(g) && w.activated <= r.activated &&
      (Exact(r) <==> w.activated <= {g} && (Fails(w, first, 0) && SetsUp(w, first, 0) ==> first == g))
  {
    var first := FirstTried(w);
    var a := RunActivate(w, first);
    FailsNow(w, first);
    if a.outcome != Failed {
      FirstSucceeds(w);
      ActivatedExactly(w, first);
    } else {
      SecondSucceeds(w);
      ActivatedExactly(a.world, w.state.failed);
      SetEqual(w.activated, a.world.activated, first, w.state.failed, SetsUp(w, first, 0));
    }
  }

  lemma SetEqual(before: set<nat>, after: set<nat>, first: nat, g: nat, added: bool)
    requires after == before + (if added then {first} else {})
    ensures after <= {g} <==> before <= {g} && (added ==> first == g)
  {
  }

  lemma FirstSucceeds(w: World)
    requires w.state.Error? && RunActivate(w, FirstTried(w)).outcome != Failed
    ensures Recover(w) == RunActivate(w, FirstTried(w))
  {
  }

  lemma SecondSucceeds(w: World)
    requires w.state.Error? && RunActivate(w, FirstTried(w)).outcome == Failed
    requires Recover(w).outcome == Done && !Recover(w).world.state.Error?
    ensures Recover(w) == RunActivate(RunActivate(w, FirstTried(w)).world, w.state.failed)
  {
    var a := RunActivate(w, FirstTried(w));
    ActivateFacts(w, FirstTried(w));
    ActivateFacts(a.world, w.state.failed);
  }

  lemma ActivatedExactly(w: World, g: nat)
    requires RunActivate(w, g).outcome == Done
    ensures var r := RunActivate(w, g).world;
      r.state == Active(g) && r.activated == w.activated + {g} && (Exact(r) <==> w.activated <= {g})
  {
    ActivateFacts(w, g);
  }

  const HEALTHY := Generation(true, Some(true), true)

  function WithOutcomes(activation: Outcome, deactivation: Outcome, effect: bool): Event {
    Event(Done, activation, deactivation, effect, HEALTHY, {})
  }

  /** The first attempt fails but leaves something set up, and the second one succeeds. */
  lemma FallbackLeavesResidue() returns (w: World)
    ensures Exact(w) && Ready(w) && w.state.Error?
    ensures Recover(w).outcome == Done && Recover(w).world.state == Active(2) && Recover(w).world.activated == {1, 2}
  {
    var well := WithOutcomes(Done, Done, true);
    w := World(Error(Some(1), 2), map[1 := HEALTHY, 2 := HEALTHY], {},
               [WithOutcomes(Failed, Done, true), well, well, well]);
    var a := RunActivate(w, 1);
    assert a == Ran(World(w.state, w.generations, {1}, w.events[1..]), Failed);
    var b := RunActivate(a.world, 2);
    assert b.outcome == Done && b.world.activated == {1, 2};
  }

  /** Deactivating the current generation leaves the app in the middle of a switch exactly if the switch
      was recorded and then the generation cannot be loaded, or its orchestrator fails, or the end cannot be
      recorded. */
  lemma FailedDeactivation(w: World, g: nat)
    requires w.state == Active(g)
    ensures var r := Deactivate(w);
      (r.world.state.Switching? && r.outcome == Failed) <==> (
        w.Upcoming(0).write == Done &&
        if !w.Has(g) then w.Upcoming(1).write == Failed
        else !w.Loads(g) || w.Upcoming(1).deactivation == Failed ||
             (w.Upcoming(1).deactivation == Done && w.Upcoming(2).write == Failed))
  {
    var s := WriteState(w, Switching(Some(g), None, false)).world;
    assert s.Upcoming(0) == w.Upcoming(1) && s.Upcoming(1) == w.Upcoming(2);
    var d := RunDeactivate(s, g).world;
    assert w.Loads(g) ==> d.Upcoming(0) == w.Upcoming(2);
  }

  /** When a generation is activated while none is current, as after a failed deactivation, nothing is
      deactivated. The resources are exactly right if and only if nothing else was set up. */
  lemma ActivationWithoutCurrent(w: World, g: nat)
    requires w.Current() == None && ActivateGeneration(w, g).outcome == Done
    ensures var r := ActivateGeneration(w, g).world;
      r.state == Active(g) && r.activated == w.activated + {g} && (Exact(r) <==> w.activated <= {g})
  {
    var s := WriteState(w, Switching(None, Some(g), false)).world;
    NeverWellUndone(RunActivate(s, g).world, g);
    ActivatedExactly(s, g);
  }

  lemma NeverWellUndone(w: World, g: nat)
    ensures UndoSwitch(w, None, g).outcome != Done
  {
  }

  /** After a failed deactivation, the next activation leaves both generations set up. */
  lemma DeactivationLeavesResidue() returns (w: World)
    ensures Exact(w) && w.state == Active(1) && Deactivate(w).outcome == Failed
    ensures var v := Deactivate(w).world;
      ActivateGeneration(v, 2).outcome == Done && ActivateGeneration(v, 2).world.activated == {1, 2}
  {
    var well := WithOutcomes(Done, Done, true);
    w := World(Active(1), map[1 := HEALTHY, 2 := HEALTHY], {1},
               [well, WithOutcomes(Done, Failed, false), well, well, well, well]);
    var s := WriteState(w, Switching(Some(1), None, false)).world;
    assert s.events == w.events[1..] && s.events[1..] == [well, well, well, well];
    var v := Deactivate(w).world;
    assert v == World(Switching(Some(1), None, false), w.generations, {1}, [well, well, well, well]);
    var x := WriteState(v, Switching(None, Some(2), false)).world;
    assert x.events == [well, well, well];
    assert Orchestrate(x, 2).world.events == [well, well];
    assert RunActivate(x, 2).outcome == Done;
    ActivationWithoutCurrent(v, 2);
  }

  /** The resources that removing an app takes down: those of its current generation, if it exists. */
  function TakenDown(w: World): set<nat> {
    if w.Current().Some? && w.Has(w.Current().value) then Named(w.Current()) else {}
  }

  /** When an app is removed, only its current generation is deactivated: none in the middle of a switch or in
      the error state. So no resources stay behind if and only if no others were set up. */
  lemma RemovalExactly(w: World)
    requires RemoveApp(w).outcome == Done
    ensures var v := RemoveApp(w).world;
      v.state == Inactive && v.generations == map[] && v.activated == w.activated - TakenDown(w) &&
      (Exact(v) <==> w.activated <= TakenDown(w))
  {
    if w.Current().Some? {
      var g := w.Current().value;
      var s := WriteState(w, Switching(Some(g), None, false)).world;
      assert Deactivate(w).world.activated == RunDeactivate(s, g).world.activated;
    }
  }

  /** After a failed deactivation, removing the app leaves its generation set up. */
  lemma RemovalLeavesResidue() returns (w: World)
    ensures Exact(w) && w.state == Active(1) && Deactivate(w).outcome == Failed
    ensures var r := RemoveApp(Deactivate(w).world);
      r.outcome == Done && r.world.generations == map[] && r.world.activated == {1}
  {
    var well := WithOutcomes(Done, Done, true);
    w := World(Active(1), map[1 := HEALTHY], {1}, [well, WithOutcomes(Done, Failed, false), well]);
    var s := WriteState(w, Switching(Some(1), None, false)).world;
    assert s.events == w.events[1..] && s.events[1..] == [well];
    var v := Deactivate(w).world;
    assert v == World(Switching(Some(1), None, false), w.generations, {1}, [well]);
    RemovalExactly(v);
  }
}
