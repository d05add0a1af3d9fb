/** What holds for an app over whole runs, with power cuts between and within all steps. */
module AppSafety {
  import opened Base
  import opened AppSteps

  ghost predicate Recorded(w: World, g: nat) {
    w.Has(g) && w.generations[g].Recorded()
  }

  /** The current generation exists and records an activation. */
  ghost predicate Safe(w: World) {
    w.Current().Some? ==> Recorded(w, w.Current().value)
  }

  ghost predicate KeptGeneration(before: Generation, after: Generation) {
    before.manifest == after.manifest && before.complete == after.complete &&
    (before.metadata == None <==> after.metadata == None) && (before.Recorded() ==> after.Recorded())
  }

  /** All generations are still there as they were, up to additional records of activations. */
  ghost predicate Kept(before: World, after: World) {
    before.generations.Keys == after.generations.Keys &&
    forall g :: g in before.generations ==> KeptGeneration(before.generations[g], after.generations[g])
  }

  ghost predicate NoFailingDeactivation(w: World) {
    forall e :: e in w.events ==> e.deactivation != Failed
  }

  /** What is set up can be torn down: its generation can be loaded, and orchestrators do not fail to
      deactivate it. */
  ghost predicate Ready(w: World) {
    NoFailingDeactivation(w) && forall g :: g in w.activated ==> w.Loads(g)
  }

  /** The generation is active: set up, and recorded as activated. */
  ghost predicate NowActive(w: World, g: nat) {
    w.state == Active(g) && g in w.activated && Recorded(w, g)
  }

  lemma MarkFacts(w: World, g: nat)
    requires w.Has(g)
    ensures var r := MarkActivated(w, g);
      Kept(w, r.world) && r.world.activated == w.activated && r.world.state == w.state &&
      (r.outcome == Done ==> Recorded(r.world, g)) && (Ready(w) ==> Ready(r.world))
  {
  }

  lemma OrchestrateFacts(w: World, g: nat)
    ensures var r := Orchestrate(w, g);
      r.world.generations == w.generations && r.world.state == w.state &&
      w.activated <= r.world.activated <= w.activated + {g} &&
      (r.outcome == Done ==> g in r.world.activated) && (Ready(w) && w.Loads(g) ==> Ready(r.world))
  {
  }

  lemma WriteFacts(w: World, state: AppState)
    ensures var r := WriteState(w, state);
      r.world.generations == w.generations && r.world.activated == w.activated &&
      (r.world.state == w.state || r.world.state == state) &&
      (r.outcome == Done ==> r.world.state == state) && (r.outcome == Failed ==> r.world.state == w.state) &&
      (Ready(w) ==> Ready(r.world))
  {
  }

  lemma ActivateFacts(w: World, g: nat)
    ensures var r := RunActivate(w, g);
      Kept(w, r.world) && w.activated <= r.world.activated <= w.activated + {g} &&
      (r.world.state == w.state || NowActive(r.world, g)) &&
      (r.outcome == Done ==> NowActive(r.world, g)) && (r.outcome == Failed ==> r.world.state == w.state) &&
      (Ready(w) ==> Ready(r.world))
  {
    if w.Loads(g) {
      OrchestrateFacts(w, g);
      var a := Orchestrate(w, g).world;
      MarkFacts(a, g);
      WriteFacts(MarkActivated(a, g).world, Active(g));
    }
  }

  lemma DeactivateFacts(w: World, g: nat)
    ensures var r := RunDeactivate(w, g);
      r.world.generations == w.generations && r.world.state == w.state &&
      w.activated - {g} <= r.world.activated <= w.activated &&
      (r.outcome == Done && w.Has(g) ==> g !in r.world.activated) &&
      (Ready(w) ==> Ready(r.world) && (r.outcome == PowerCut || g !in r.world.activated))
  {
  }

  lemma GoBackFacts(w: World, from: Option<nat>, to: nat)
    ensures var r := GoBack(w, from, to);
      Kept(w, r.world) && (Safe(w) ==> Safe(r.world)) && (Ready(w) ==> Ready(r.world))
  {
    if from.Some? {
      ActivateFacts(w, from.value);
      WriteFacts(RunActivate(w, from.value).world, Error(from, to));
    }
    WriteFacts(w, Error(from, to));
  }

  lemma UndoFacts(w: World, from: Option<nat>, to: nat)
    ensures var r := UndoSwitch(w, from, to);
      Kept(w, r.world) && (Safe(w) ==> Safe(r.world)) && (Ready(w) ==> Ready(r.world))
  {
    DeactivateFacts(w, to);
    GoBackFacts(RunDeactivate(w, to).world, from, to);
  }

  lemma SwitchToFacts(w: World, from: Option<nat>, to: Option<nat>)
    ensures var r := SwitchTo(w, from, to);
      Kept(w, r.world) && (Safe(w) ==> Safe(r.world)) && (Ready(w) ==> Ready(r.world))
  {
    if to.Some? {
      ActivateFacts(w, to.value);
      UndoFacts(RunActivate(w, to.value).world, from, to.value);
    }
  }

  /** A switch keeps all generations, and the current one is always a recorded one. */
  lemma SwitchFacts(w: World, from: Option<nat>, to: Option<nat>, recovery: bool)
    ensures var r := DoSwitch(w, from, to, recovery);
      Kept(w, r.world) && (Safe(w) ==> Safe(r.world)) && (Ready(w) ==> Ready(r.world))
  {
    var s := WriteState(w, Switching(from, to, recovery));
    if from.Some? {
      DeactivateFacts(s.world, from.value);
    }
    var d := if from.Some? then RunDeactivate(s.world, from.value) else s;
    WriteFacts(w, Switching(from, to, recovery));
    assert d.world.generations == w.generations && (Safe(w) ==> Safe(d.world));
    SwitchToFacts(d.world, from, to);
  }

  function Named(g: Option<nat>): set<nat> {
    if g.Some? then {g.value} else {}
  }

  /** The resources that are set up agree with the state: exactly those of the current generation, and
      during and after a switch that did not end well, none but those of its two generations. */
  ghost predicate Exact(w: World) {
    match w.state
    case Inactive => w.activated == {}
    case Switching(from, to, _) => w.activated <= Named(from) + Named(to)
    case Error(from, failed) => w.activated <= Named(from) + {failed}
    case _ => w.activated == {w.state.generation}
  }

  /** Where a switch can be: not begun, under way, ended, or failed. */
  ghost predicate OnTheWay(w: World, from: Option<nat>, to: Option<nat>) {
    match w.state
    case Inactive => from == None || to == None
    case Active(g) => from == Some(g) || to == Some(g)
    case Switching(f, t, _) => f == from && t == to
    case Error(f, failed) => f == from && to == Some(failed)
    case _ => false
  }

  /** A switch has an outcome that is settled when it ended well. */
  ghost predicate WellEnded(r: Ran, from: Option<nat>, to: Option<nat>) {
    Exact(r.world) && Ready(r.world) && OnTheWay(r.world, from, to) &&
    (r.outcome == Done ==> r.world.state.Inactive? || r.world.state.Active?)
  }

  lemma GoBackExact(w: World, from: Option<nat>, to: nat)
    requires Ready(w) && w.activated == {} && w.state.Switching? && w.state.from == from && w.state.to == Some(to)
    ensures WellEnded(GoBack(w, from, to), from, Some(to))
  {
    if from.Some? {
      ActivateFacts(w, from.value);
      WriteFacts(RunActivate(w, from.value).world, Error(from, to));
    }
    WriteFacts(w, Error(from, to));
  }

  lemma UndoExact(w: World, from: Option<nat>, to: nat)
    requires Ready(w) && w.activated <= {to} && w.state.Switching? && w.state.from == from && w.state.to == Some(to)
    ensures WellEnded(UndoSwitch(w, from, to), from, Some(to))
  {
    var c := RunDeactivate(w, to);
    DeactivateFacts(w, to);
    if c.outcome != PowerCut {
      GoBackExact(c.world, from, to);
    }
  }

  lemma SwitchToExact(w: World, from: Option<nat>, to: Option<nat>)
    requires Ready(w) && w.activated <= Named(to) && w.state.Switching? && w.state.from == from && w.state.to == to
    ensures WellEnded(SwitchTo(w, from, to), from, to)
  {
    if to.Some? {
      var a := RunActivate(w, to.value);
      ActivateFacts(w, to.value);
      if a.outcome == Failed {
        UndoExact(a.world, from, to.value);
      }
    }
  }

  /** A switch can be begun, or begun again. */
  ghost predicate CanSwitch(w: World, from: Option<nat>, to: Option<nat>) {
    Ready(w) && Exact(w) && OnTheWay(w, from, to) && w.activated <= Named(from) + Named(to)
  }

  /** From the resources of its two generations at most, a switch gets to exactly the right ones. */
  lemma SwitchExact(w: World, from: Option<nat>, to: Option<nat>, recovery: bool)
    requires CanSwitch(w, from, to)
    ensures WellEnded(DoSwitch(w, from, to, recovery), from, to)
  {
    var s := WriteState(w, Switching(from, to, recovery));
    if s.outcome == Done {
      var d := if from.Some? then RunDeactivate(s.world, from.value) else s;
      if from.Some? {
        DeactivateFacts(s.world, from.value);
      }
      if d.outcome != PowerCut {
        SwitchToExact(d.world, from, to);
      }
    }
  }

  /** Resume after every power cut, as long as the app is not in the error state. */
  function Resume(r: Ran): Ran
    decreases |r.world.events|
  {
    if r.outcome == PowerCut && !r.world.state.Error? then
      var n := Recover(r.world);
      if |n.world.events| < |r.world.events| then Resume(n) else n
    else r
  }

  lemma {:induction false} ResumeExact(r: Ran, from: Option<nat>, to: Option<nat>)
    requires WellEnded(r, from, to)
    ensures WellEnded(Resume(r), from, to)
    decreases |r.world.events|
  {
    if r.outcome == PowerCut && !r.world.state.Error? {
      var n := Recover(r.world);
      if r.world.state.Switching? {
        SwitchExact(r.world, from, to, true);
      }
      if |n.world.events| < |r.world.events| {
        ResumeExact(n, from, to);
      }
    }
  }

  /** A switch between generations, cut off by any number of power cuts and resumed after each of
      them, sets up exactly the generation that it ends with, or none: if it ends well, either one
      of the two generations is active and alone, or no generation is active and nothing is set up. */
  lemma CrashSafeSwitch(w: World, from: Option<nat>, to: Option<nat>)
    requires Ready(w) && w.activated == Named(from) && w.state == (if from.Some? then Active(from.value) else Inactive)
    requires from.Some? || to.Some?
    ensures var r := Resume(DoSwitch(w, from, to, false));
      r.outcome == Done ==> match r.world.state
        case Active(g) => r.world.activated == {g} && (from == Some(g) || to == Some(g))
        case Inactive => r.world.activated == {} && (from == None || to == None)
        case _ => false
  {
    SwitchExact(w, from, to, false);
    ResumeExact(DoSwitch(w, from, to, false), from, to);
  }

  ghost predicate AllWell(w: World, n: nat) {
    n <= |w.events| &&
    forall i :: 0 <= i < n ==> w.events[i].write == w.events[i].activation == w.events[i].deactivation == Done
  }

  lemma ActivationSucceeds(w: World, g: nat)
    requires AllWell(w, 3) && w.Loads(g) && w.generations[g].metadata.Some?
    ensures var r := RunActivate(w, g); r.outcome == Done && r.world.state == Active(g)
  {
    var a := Orchestrate(w, g).world;
    assert AllWell(a, 2) && a.generations == w.generations;
    var m := MarkActivated(a, g);
    assert m.outcome == Done && AllWell(m.world, 1);
  }

  /** Without trouble, a switch ends with the new generation. */
  lemma SwitchSucceeds(w: World, from: Option<nat>, to: Option<nat>, recovery: bool)
    requires AllWell(w, 5)
    requires to.Some? ==> w.Loads(to.value) && w.generations[to.value].metadata.Some?
    requires from.Some? && to == None ==> w.Has(from.value) ==> w.Loads(from.value)
    ensures var r := DoSwitch(w, from, to, recovery);
      r.outcome == Done && r.world.state == (if to.Some? then Active(to.value) else Inactive)
  {
    var s := WriteState(w, Switching(from, to, recovery));
    assert AllWell(s.world, 4) && s.world.generations == w.generations;
    var d := if from.Some? then RunDeactivate(s.world, from.value) else s;
    assert AllWell(d.world, 3) && d.world.generations == w.generations && d.outcome != PowerCut;
    if to.Some? {
      ActivationSucceeds(d.world, to.value);
    }
  }

  /** If the new generation turns out to be broken, a switch ends with the old one. */
  lemma BrokenIsRolledBack(w: World, from: nat, to: nat, recovery: bool)
    requires AllWell(w, 5) && w.Has(to) && !w.Loads(to)
    requires w.Loads(from) && w.generations[from].metadata.Some? && w.generations[from].complete
    ensures var r := DoSwitch(w, Some(from), Some(to), recovery);
      r.outcome == Done && r.world.state == Active(from)
  {
    var s := WriteState(w, Switching(Some(from), Some(to), recovery)).world;
    assert AllWell(s, 4) && s.generations == w.generations;
    var d := RunDeactivate(s, from).world;
    assert AllWell(d, 3) && d.generations == w.generations;
    ActivationSucceeds(d, from);
  }

  /** Nothing fails, although the power may be cut, and both generations are as they should be. */
  ghost predicate Untroubled(w: World, from: Option<nat>, to: Option<nat>) {
    (forall e :: e in w.events ==> e.write != Failed && e.activation != Failed && e.deactivation != Failed) &&
    (from.Some? && w.Has(from.value) ==> w.Loads(from.value)) &&
    (to.Some? ==> w.Loads(to.value) && w.generations[to.value].metadata.Some?)
  }

  /** The switch is under way, and cut off, or has ended with the new generation. */
  ghost predicate Arriving(r: Ran, from: Option<nat>, to: Option<nat>) {
    r.outcome != Failed && Untroubled(r.world, from, to) &&
    (r.world.state == (if to.Some? then Active(to.value) else Inactive) ||
     (r.outcome == PowerCut && r.world.state.Switching? && r.world.state.from == from && r.world.state.to == to))
  }

  lemma ActivationArrives(w: World, from: Option<nat>, to: nat)
    requires Untroubled(w, from, Some(to)) && w.state.Switching? && w.state.from == from && w.state.to == Some(to)
    ensures Arriving(RunActivate(w, to), from, Some(to))
  {
    var a := Orchestrate(w, to).world;
    assert Untroubled(a, from, Some(to));
    if Orchestrate(w, to).outcome == Done {
      assert Untroubled(MarkActivated(a, to).world, from, Some(to));
    }
  }

  lemma SwitchToArrives(w: World, from: Option<nat>, to: Option<nat>)
    requires Untroubled(w, from, to) && w.state.Switching? && w.state.from == from && w.state.to == to
    ensures Arriving(SwitchTo(w, from, to), from, to)
  {
    if to.Some? {
      ActivationArrives(w, from, to.value);
    } else {
      assert Untroubled(WriteState(w, Inactive).world, from, to);
    }
  }

  lemma DeactivationUntroubled(w: World, g: nat, from: Option<nat>, to: Option<nat>)
    requires Untroubled(w, from, to) && from == Some(g)
    ensures var d := RunDeactivate(w, g);
      Untroubled(d.world, from, to) && d.outcome != Failed && d.world.state == w.state
  {
  }

  lemma SwitchArrives(w: World, from: Option<nat>, to: Option<nat>, recovery: bool)
    requires Untroubled(w, from, to)
    ensures var r := DoSwitch(w, from, to, recovery);
      Arriving(r, from, to) || (r.outcome == PowerCut && r.world.state == w.state && Untroubled(r.world, from, to))
  {
    var s := WriteState(w, Switching(from, to, recovery));
    assert Untroubled(s.world, from, to);
    if s.outcome == Done {
      if from.Some? {
        DeactivationUntroubled(s.world, from.value, from, to);
      }
      var d := if from.Some? then RunDeactivate(s.world, from.value) else s;
      if d.outcome != PowerCut {
        SwitchToArrives(d.world, from, to);
      }
    }
  }

  lemma {:induction false} ResumeArrives(r: Ran, from: Option<nat>, to: Option<nat>)
    requires Arriving(r, from, to)
    ensures Arriving(Resume(r), from, to)
    decreases |r.world.events|
  {
    if r.outcome == PowerCut {
      var n := Recover(r.world);
      if r.world.state.Switching? {
        SwitchArrives(r.world, from, to, true);
      }
      if |n.world.events| < |r.world.events| {
        ResumeArrives(n, from, to);
      }
    }
  }

  /** When nothing fails, a switch that was recorded ends, however often it is cut off, with the new
      generation, or with none if there is no new one; never with an error and never with the old one. */
  lemma RecordedSwitchArrives(w: World, from: Option<nat>, to: Option<nat>, recovery: bool)
    requires Untroubled(w, from, to) && w.state == Switching(from, to, recovery)
    ensures var r := Resume(Recover(w));
      r.outcome == PowerCut || (r.outcome == Done && r.world.state == (if to.Some? then Active(to.value) else Inactive))
  {
    SwitchArrives(w, from, to, true);
    ResumeArrives(Recover(w), from, to);
  }
}
