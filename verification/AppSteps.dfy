/** What the app manager does to one app, step by step, as functions of the state on disk, the resources
    that are set up, and the way every single step ends. */
module AppSteps {
  import opened Base

  /** The persisted state of an app. */
  datatype AppState =
    | Inactive
    | Active(generation: nat)
    | Switching(from: Option<nat>, to: Option<nat>, recovery: bool)
    | Starting(generation: nat)
    | Stopping(generation: nat)
    | Error(from: Option<nat>, failed: nat)

  /** A generation directory: whether its manifest can be loaded and names a known orchestrator, its
      metadata if it can be read, which tells whether an activation is recorded, and whether it is
      marked as complete. */
  datatype Generation = Generation(manifest: bool, metadata: Option<bool>, complete: bool) {
    predicate Recorded() {
      metadata == Some(true)
    }
  }

  /** How a step ends: well, with an error, or not at all because the power was cut. */
  datatype Outcome = Done | Failed | PowerCut

  /** How the next step ends, by what kind of step it is. A step that does not end well may have had
      an effect anyway, and a removal may leave parts of what it should remove. */
  datatype Event = Event(
    write: Outcome, activation: Outcome, deactivation: Outcome, effect: bool, left: Generation, gone: set<nat>)

  /** The state of an app, its generations, the generations whose resources are set up, and what will
      happen. Without any further event, the power is cut. */
  datatype World = World(state: AppState, generations: map<nat, Generation>, activated: set<nat>, events: seq<Event>) {
    /** How step `i` from now on ends. */
    function Upcoming(i: nat): Event {
      if i < |events| then events[i] else Event(PowerCut, PowerCut, PowerCut, false, Generation(false, None, false), {})
    }

    function Next(): Event {
      Upcoming(0)
    }

    function Later(): World {
      this.(events := if events == [] then [] else events[1..])
    }

    function Current(): Option<nat> {
      if state.Active? || state.Starting? || state.Stopping? then Some(state.generation) else None
    }

    predicate Has(g: nat) {
      g in generations
    }

    predicate Loads(g: nat) {
      g in generations && generations[g].manifest
    }
  }

  datatype Ran = Ran(world: World, outcome: Outcome)

  /** Replace a file. A write that fails has no effect. */
  function Written(w: World, changed: World, ending: Outcome, effect: bool): Ran {
    Ran(if ending == Done || (ending == PowerCut && effect) then changed else w, ending)
  }

  function WriteState(w: World, state: AppState): Ran {
    var e, v := w.Next(), w.Later();
    Written(v, v.(state := state), e.write, e.effect)
  }

  /** Record an activation in the metadata of a generation. */
  function MarkActivated(w: World, g: nat): Ran
    requires w.Has(g)
  {
    if w.generations[g].metadata == None then Ran(w, Failed)
    else
      var e, v := w.Next(), w.Later();
      Written(v, v.(generations := v.generations[g := v.generations[g].(metadata := Some(true))]), e.write, e.effect)
  }

  /** Let the orchestrator set up a generation. */
  function Orchestrate(w: World, g: nat): Ran {
    var e, v := w.Next(), w.Later();
    Ran(if e.activation == Done || e.effect then v.(activated := v.activated + {g}) else v, e.activation)
  }

  function RunActivate(w: World, g: nat): Ran {
    if !w.Loads(g) then Ran(w, Failed)
    else
      var a := Orchestrate(w, g);
      if a.outcome != Done then a
      else
        var m := MarkActivated(a.world, g);
        if m.outcome != Done then m else WriteState(m.world, Active(g))
  }

  function RunDeactivate(w: World, g: nat): Ran {
    if !w.Has(g) then Ran(w, Done)
    else if !w.Loads(g) then Ran(w, Failed)
    else
      var e, v := w.Next(), w.Later();
      Ran(if e.deactivation == Done || e.effect then v.(activated := v.activated - {g}) else v, e.deactivation)
  }

  /** Start or stop the workload of a generation. */
  function RunWorkload(w: World, g: nat): Ran {
    if !w.Loads(g) then Ran(w, Failed) else Ran(w.Later(), w.Next().activation)
  }

  /** A switch that has failed: even when its end is recorded well. */
  function FailWith(w: World, from: Option<nat>, to: nat): Ran {
    var r := WriteState(w, Error(from, to));
    Ran(r.world, if r.outcome == Done then Failed else r.outcome)
  }

  /** Go back to the previous generation, if there is one that is complete. */
  function GoBack(w: World, from: Option<nat>, to: nat): Ran {
    if from.Some? && w.Has(from.value) && w.generations[from.value].complete then
      var b := RunActivate(w, from.value);
      if b.outcome == Failed then FailWith(b.world, from, to) else b
    else FailWith(w, from, to)
  }

  /** After a failed activation, clean up and go back. */
  function UndoSwitch(w: World, from: Option<nat>, to: nat): Ran {
    var c := RunDeactivate(w, to);
    if c.outcome == PowerCut then c else GoBack(c.world, from, to)
  }

  /** The part of a switch after it was recorded and the old generation was dealt with. */
  function SwitchTo(w: World, from: Option<nat>, to: Option<nat>): Ran {
    if to == None then WriteState(w, Inactive)
    else
      var a := RunActivate(w, to.value);
      if a.outcome != Failed then a else UndoSwitch(a.world, from, to.value)
  }

  function DoSwitch(w: World, from: Option<nat>, to: Option<nat>, recovery: bool): Ran {
    var s := WriteState(w, Switching(from, to, recovery));
    if s.outcome != Done then s
    else
      var d := if from.Some? then RunDeactivate(s.world, from.value) else s;
      if d.outcome == PowerCut || (d.outcome == Failed && to == None) then d
      else SwitchTo(d.world, from, to)
  }

  /** Whatever the workload does, the generation is active afterwards. */
  function BackToActive(w: World, g: nat): Ran {
    var s := RunWorkload(w, g);
    if s.outcome == PowerCut then s else WriteState(s.world, Active(g))
  }

  /** Try the generation that worked before, and then the one that failed. */
  function RecoverError(w: World, from: Option<nat>, failed: nat): Ran {
    var a := RunActivate(w, if from.Some? then from.value else failed);
    if a.outcome != Failed then a
    else if from == None then Ran(a.world, Done)
    else
      var b := RunActivate(a.world, failed);
      if b.outcome == Failed then Ran(b.world, Done) else b
  }

  function Recover(w: World): Ran {
    match w.state
    case Switching(from, to, _) => DoSwitch(w, from, to, true)
    case Starting(g) => BackToActive(w, g)
    case Stopping(g) => BackToActive(w, g)
    case Error(from, failed) => RecoverError(w, from, failed)
    case _ => Ran(w, Done)
  }

  function ActivateGeneration(w: World, g: nat): Ran {
    if !w.Has(g) || !w.generations[g].complete then Ran(w, Failed) else DoSwitch(w, w.Current(), Some(g), false)
  }

  function Deactivate(w: World): Ran {
    if w.Current() == None then Ran(w, Failed) else DoSwitch(w, w.Current(), None, false)
  }

  /** Start or stop the workload of the active generation. */
  function ChangeWorkload(w: World, during: AppState): Ran
    requires w.state.Active?
  {
    var s := WriteState(w, during);
    if s.outcome != Done then s
    else
      var x := RunWorkload(s.world, w.state.generation);
      if x.outcome == PowerCut then x
      else
        var r := WriteState(x.world, w.state);
        Ran(r.world, if r.outcome == Done then x.outcome else r.outcome)
  }

  function StartApp(w: World): Ran {
    if w.state.Active? then ChangeWorkload(w, Starting(w.state.generation)) else Ran(w, Failed)
  }

  function StopApp(w: World): Ran {
    if w.state.Active? then ChangeWorkload(w, Stopping(w.state.generation)) else Ran(w, Failed)
  }

  /** The highest generation below `n` with a recorded activation. */
  function PreviousActivated(generations: map<nat, Generation>, n: nat): (r: Option<nat>)
    ensures r.Some? ==> r.value < n && r.value in generations && generations[r.value].Recorded()
    ensures forall g :: g in generations && (if r.Some? then r.value else -1) < g < n ==> !generations[g].Recorded()
  {
    if n == 0 then None
    else if n - 1 in generations && generations[n - 1].Recorded() then Some(n - 1)
    else PreviousActivated(generations, n - 1)
  }

  function Rollback(w: World): Ran {
    if w.Current() == None then Ran(w, Failed)
    else
      var previous := PreviousActivated(w.generations, w.Current().value);
      if previous == None then Ran(w, Failed) else ActivateGeneration(w, previous.value)
  }

  /** The number of the next generation: one more than the highest, or than zero if there is none. */
  ghost function NextNumber(numbers: set<nat>): (n: nat)
    ensures 0 < n && (n == 1 || n - 1 in numbers) && forall g :: g in numbers ==> g < n
  {
    if numbers == {} then 1
    else
      var g :| g in numbers;
      var rest := NextNumber(numbers - {g});
      assert forall h :: h in numbers ==> h == g || h in numbers - {g};
      if rest <= g then g + 1 else rest
  }

  /** Change the files of a generation; also a failing change may have an effect. */
  function ChangeGeneration(w: World, g: nat, generation: Generation): Ran {
    var e, v := w.Next(), w.Later();
    Ran(if e.write == Done || e.effect then v.(generations := v.generations[g := generation]) else v, e.write)
  }

  /** Replace the metadata of a generation by that of one that was never activated. */
  function WriteMetadata(w: World, g: nat): Ran
    requires w.Has(g)
  {
    var e, v := w.Next(), w.Later();
    Written(v, v.(generations := v.generations[g := v.generations[g].(metadata := Some(false))]), e.write, e.effect)
  }

  /** Write the payloads and the metadata of generation `g`, which is a new one. */
  function Prepare(w: World, g: nat, manifest: bool): Ran {
    var c := ChangeGeneration(w, g, Generation(false, None, false));
    if c.outcome != Done then c
    else
      var p := ChangeGeneration(c.world, g, Generation(manifest, None, false));
      if p.outcome != Done then p
      else
        var m := WriteMetadata(p.world, g);
        if m.outcome != Done then m else ChangeGeneration(m.world, g, Generation(manifest, Some(false), true))
  }

  /** Install the payloads into generation `g` and activate it. */
  function InstallAs(w: World, g: nat, manifest: bool): Ran {
    var k := Prepare(w, g, manifest);
    if k.outcome != Done then k else ActivateGeneration(k.world, g)
  }

  ghost function Install(w: World, manifest: bool): Ran {
    InstallAs(w, NextNumber(w.generations.Keys), manifest)
  }

  /** What is left of a generation when its removal does not finish. */
  function Remains(g: Generation, left: Generation): Generation {
    Generation(g.manifest && left.manifest, if left.metadata == None then None else g.metadata,
               g.complete && left.complete)
  }

  /** Remove the directory of a generation. */
  function RemoveDirectory(w: World, g: nat): Ran
    requires w.Has(g)
  {
    var e, v := w.Next(), w.Later();
    Ran(v.(generations := if e.write == Done || e.effect then v.generations - {g}
                          else v.generations[g := Remains(v.generations[g], e.left)]),
        e.write)
  }

  /** Remove a generation. It counts as incomplete first. */
  function RemoveGeneration(w: World, g: nat): Ran
    requires w.Has(g)
  {
    if w.generations[g].complete then
      var c := ChangeGeneration(w, g, w.generations[g].(complete := false));
      if c.outcome != Done then c else RemoveDirectory(c.world, g)
    else RemoveDirectory(w, g)
  }

  /** Remove generations, and go on when one cannot be removed. */
  function RemoveAll(w: World, numbers: seq<nat>): Ran
    decreases |numbers|
  {
    if numbers == [] then Ran(w, Done)
    else
      var r := if w.Has(numbers[0]) then RemoveGeneration(w, numbers[0]) else Ran(w, Failed);
      if r.outcome == PowerCut then r else RemoveAll(r.world, numbers[1..])
  }

  /** The given numbers below `n` in ascending order. */
  function Ascending(numbers: set<nat>, n: nat): (r: seq<nat>)
    ensures forall i :: 0 <= i < |r| ==> r[i] in numbers && r[i] < n
    ensures forall i, j :: 0 <= i < j < |r| ==> r[i] < r[j]
    ensures forall g :: g in numbers && g < n ==> g in r
  {
    if n == 0 then [] else Ascending(numbers, n - 1) + (if n - 1 in numbers then [n - 1] else [])
  }

  /** The generations that were never activated, and those that were, except the current one. */
  function NeverActivated(w: World): set<nat> {
    set g | g in w.generations && !w.generations[g].Recorded()
  }

  function OthersActivated(w: World): set<nat> {
    set g | g in w.generations && w.generations[g].Recorded() && w.Current() != Some(g)
  }

  /** Remove generations, of which `next` is larger than any. */
  function GcBelow(w: World, keep: nat, next: nat): Ran {
    var r := RemoveAll(w, Ascending(NeverActivated(w), next));
    var others := Ascending(OthersActivated(w), next);
    if r.outcome == PowerCut || |others| <= keep then r else RemoveAll(r.world, others[..|others| - keep])
  }

  ghost function Gc(w: World, keep: nat): Ran {
    GcBelow(w, keep, NextNumber(w.generations.Keys))
  }

  /** Remove the directory of the app with all generations and the state. */
  function RemoveAppDirectory(w: World): Ran {
    var e, v := w.Next(), w.Later();
    if e.write == Done then Ran(v.(state := Inactive, generations := map[]), Done)
    else
      Ran(v.(state := if e.effect then Inactive else v.state,
             generations := map g | g in v.generations && g !in e.gone :: Remains(v.generations[g], e.left)),
          e.write)
  }

  function RemoveApp(w: World): Ran {
    var d := if w.Current() == None then Ran(w, Done) else Deactivate(w);
    if d.outcome != Done then d else RemoveAppDirectory(d.world)
  }
}
