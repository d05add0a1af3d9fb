/** Garbage collection of generations leaves exactly the right ones. */
module AppCollection {
  import opened Base
  import opened AppSteps
  import opened AppSafety

  /** Every change of files ends well, as long as the power is there. */
  ghost predicate WritesWell(w: World) {
    forall e :: e in w.events ==> e.write == Done
  }

  ghost predicate IsAscending(s: seq<nat>) {
    forall i, j :: 0 <= i < j < |s| ==> s[i] < s[j]
  }

  ghost function Elements(s: seq<nat>): set<nat> {
    set g | g in s
  }

  lemma {:induction false} ElementsSize(s: seq<nat>)
    requires IsAscending(s)
    ensures |Elements(s)| == |s|
  {
    if s != [] {
      var rest := s[..|s| - 1];
      ElementsSize(rest);
      assert s == rest + [s[|s| - 1]];
      assert Elements(s) == Elements(rest) + {s[|s| - 1]};
    }
  }

  /** How many elements are above one of them. */
  lemma AboveSize(s: seq<nat>, i: nat)
    requires IsAscending(s) && i < |s|
    ensures |set h | h in Elements(s) && h > s[i]| == |s| - 1 - i
  {
    ElementsSize(s[i + 1..]);
    var above := set h | h in Elements(s) && h > s[i];
    forall h | h in above
      ensures h in s[i + 1..]
    {
      var j :| 0 <= j < |s| && s[j] == h;
      assert s[i + 1..][j - i - 1] == h;
    }
    assert above == Elements(s[i + 1..]);
  }

  lemma RemoveGenerationWell(w: World, g: nat)
    requires WritesWell(w) && w.Has(g)
    ensures var r := RemoveGeneration(w, g);
      r.outcome != Failed && WritesWell(r.world) && r.world.state == w.state &&
      (r.outcome == Done ==> r.world.generations == w.generations - {g})
  {
  }

  lemma {:induction false} RemoveAllExact(w: World, numbers: seq<nat>)
    requires WritesWell(w)
    ensures var r := RemoveAll(w, numbers);
      r.outcome != Failed && WritesWell(r.world) && r.world.state == w.state &&
      (r.outcome == Done ==> r.world.generations == w.generations - Elements(numbers))
    decreases |numbers|
  {
    if numbers == [] {
      assert w.generations - Elements(numbers) == w.generations;
    } else {
      var r := if w.Has(numbers[0]) then RemoveGeneration(w, numbers[0]) else Ran(w, Failed);
      if w.Has(numbers[0]) {
        RemoveGenerationWell(w, numbers[0]);
      }
      if r.outcome != PowerCut {
        RemoveAllExact(r.world, numbers[1..]);
        assert Elements(numbers) == {numbers[0]} + Elements(numbers[1..]);
        RemoveTwice(w.generations, numbers[0], Elements(numbers[1..]));
      }
    }
  }

  lemma RemoveTwice(m: map<nat, Generation>, g: nat, rest: set<nat>)
    ensures (m - {g}) - rest == m - ({g} + rest)
    ensures g !in m ==> m - rest == m - ({g} + rest)
  {
  }

  /** A generation with a recorded activation stays if it is the current one, or if fewer than `keep`
      others with recorded activations have higher numbers. All others go. */
  ghost predicate Stays(w: World, keep: nat, g: nat) {
    Recorded(w, g) && (w.Current() == Some(g) || |set h | h in OthersActivated(w) && h > g| < keep)
  }

  lemma NotAmongFirst(s: seq<nat>, i: nat, k: nat)
    requires IsAscending(s) && i < |s| && k <= |s|
    ensures s[i] !in s[..k] <==> k <= i
  {
    assert i < k ==> s[..k][i] == s[i];
  }

  lemma OthersListed(w: World, keep: nat, next: nat, g: nat)
    requires w.Has(g) && Recorded(w, g) && forall h: nat :: w.Has(h) ==> h < next
    ensures var others := Ascending(OthersActivated(w), next);
      Stays(w, keep, g) <==> g !in others[..Excess(others, keep)]
  {
    var others := Ascending(OthersActivated(w), next);
    var k := Excess(others, keep);
    if w.Current() == Some(g) {
      assert g !in others;
    } else {
      assert forall h :: h in OthersActivated(w) ==> w.Has(h);
      SameElements(OthersActivated(w), next);
      assert g in others;
      var i :| 0 <= i < |others| && others[i] == g;
      AboveSize(others, i);
      assert (set h | h in OthersActivated(w) && h > g) == set h | h in Elements(others) && h > others[i];
      NotAmongFirst(others, i, k);
    }
  }

  lemma SameElements(numbers: set<nat>, next: nat)
    requires forall h :: h in numbers ==> h < next
    ensures Elements(Ascending(numbers, next)) == numbers
  {
  }

  /** Exactly the generations that stay are left, as they were. */
  ghost predicate Collected(w: World, left: World, keep: nat) {
    left.state == w.state && forall g: nat ::
      (left.Has(g) <==> w.Has(g) && Stays(w, keep, g)) && (left.Has(g) ==> left.generations[g] == w.generations[g])
  }

  /** How many of the others are removed. */
  function Excess(others: seq<nat>, keep: nat): (k: nat)
    ensures k <= |others|
  {
    if |others| > keep then |others| - keep else 0
  }

  lemma GcLeaves(w: World, keep: nat, next: nat)
    requires WritesWell(w) && GcBelow(w, keep, next).outcome == Done
    ensures var others := Ascending(OthersActivated(w), next);
      var left := GcBelow(w, keep, next).world;
      left.state == w.state && left.generations
      == w.generations - Elements(Ascending(NeverActivated(w), next)) - Elements(others[..Excess(others, keep)])
  {
    var never, others := Ascending(NeverActivated(w), next), Ascending(OthersActivated(w), next);
    RemoveAllExact(w, never);
    RemoveAllExact(RemoveAll(w, never).world, others[..Excess(others, keep)]);
    assert Elements(others[..0]) == {};
  }

  lemma LeftAt(w: World, keep: nat, next: nat, g: nat)
    requires Safe(w) && forall h: nat :: w.Has(h) ==> h < next
    ensures var others := Ascending(OthersActivated(w), next);
      g in w.generations - Elements(Ascending(NeverActivated(w), next)) - Elements(others[..Excess(others, keep)])
      <==> w.Has(g) && Stays(w, keep, g)
  {
    var never := Ascending(NeverActivated(w), next);
    if w.Has(g) && Recorded(w, g) {
      OthersListed(w, keep, next, g);
      assert g !in never;
    } else if w.Has(g) {
      assert g in NeverActivated(w) && g in never;
    }
  }

  /** Collection with successful removals leaves exactly the current generation and the `keep` other
      ones with the highest numbers among those with recorded activations, all as they were. */
  lemma GcExact(w: World, keep: nat)
    requires Safe(w) && WritesWell(w) && Gc(w, keep).outcome == Done
    ensures Collected(w, Gc(w, keep).world, keep)
  {
    var next := NextNumber(w.generations.Keys);
    var left := GcBelow(w, keep, next).world;
    GcLeaves(w, keep, next);
    forall g: nat
      ensures left.Has(g) <==> w.Has(g) && Stays(w, keep, g)
      ensures left.Has(g) ==> left.generations[g] == w.generations[g]
    {
      LeftAt(w, keep, next, g);
    }
  }
}
