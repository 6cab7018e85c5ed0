/** `refinePlanInteractive` of `refiner.ts`: the steps the operator ticked are removed
    from the plan object in place, and the same object is handed back. The operator's
    choice comes in as the list of identifiers to remove. */
module Refiner {
  import opened Wrappers
  import opened Seqs
  import opened Types

  /** A plan as the mutable object the refiner receives. */
  class PlanObject {
    var goal: string
    var repoSummary: RepoSummary
    var steps: seq<PlanStep>
    var notes: seq<string>

    constructor (p: Plan)
      ensures View() == p
    {
      goal := p.goal;
      repoSummary := p.repoSummary;
      steps := p.steps;
      notes := p.notes;
    }

    /** The plan the object holds. */
    function View(): Plan
      reads this
    {
      Plan(goal, repoSummary, steps, notes)
    }
  }

  /** `steps.filter(s => !toRemove.includes(s.id))` */
  function KeptSteps(steps: seq<PlanStep>, toRemove: seq<string>): seq<PlanStep> {
    Filter(steps, (s: PlanStep) => s.id !in toRemove)
  }

  /** `plan.steps = plan.steps.filter(...)` followed by `return plan`: only the
      steps change, and the caller's object is the result. */
  method RefinePlan(plan: PlanObject, toRemove: seq<string>) returns (r: PlanObject)
    modifies plan
    ensures r == plan
    ensures plan.steps == KeptSteps(old(plan.steps), toRemove)
    ensures plan.View() == old(plan.View()).(steps := KeptSteps(old(plan.steps), toRemove))
  {
    plan.steps := KeptSteps(plan.steps, toRemove);
    return plan;
  }

  // ---------------------------------------------------------------------------
  // Which steps survive.

  /** A step survives exactly when it was in the plan and its identifier was not
      ticked; the survivors keep their relative order, and each keeps all of its
      occurrences. */
  lemma KeptExactly(steps: seq<PlanStep>, toRemove: seq<string>, s: PlanStep)
    ensures s in KeptSteps(steps, toRemove) <==> s in steps && s.id !in toRemove
    ensures IsSubseq(KeptSteps(steps, toRemove), steps)
    ensures multiset(KeptSteps(steps, toRemove))[s] == if s.id in toRemove then 0 else multiset(steps)[s]
  {
    FilterIsSubseq(steps, (s: PlanStep) => s.id !in toRemove);
    FilterMultiset(steps, (s: PlanStep) => s.id !in toRemove, s);
  }

  /** Ticking nothing keeps every step. */
  lemma KeepAllWhenNothingTicked(steps: seq<PlanStep>)
    ensures KeptSteps(steps, []) == steps
  {
    FilterAllKept(steps, (s: PlanStep) => s.id !in []);
  }

  /** Refining twice is refining once with both lists. */
  lemma {:induction false} RefineTwice(steps: seq<PlanStep>, a: seq<string>, b: seq<string>)
    ensures KeptSteps(KeptSteps(steps, a), b) == KeptSteps(steps, a + b)
    decreases |steps|
  {
    if steps != [] {
      RefineTwice(steps[1..], a, b);
      var s := steps[0];
      var first := if s.id !in a then [s] else [];
      assert KeptSteps(steps, a) == first + KeptSteps(steps[1..], a);
      FilterAppend(first, KeptSteps(steps[1..], a), (s: PlanStep) => s.id !in b);
      assert s.id !in a + b <==> s.id !in a && s.id !in b;
    }
  }

  /** The number of steps whose identifier was ticked. */
  function RemovedCount(steps: seq<PlanStep>, toRemove: seq<string>): nat {
    if steps == [] then 0 else (if steps[0].id in toRemove then 1 else 0) + RemovedCount(steps[1..], toRemove)
  }

  /** The plan shrinks by the number of steps whose identifier was ticked. */
  lemma {:induction false} KeptCount(steps: seq<PlanStep>, toRemove: seq<string>)
    ensures |KeptSteps(steps, toRemove)| == |steps| - RemovedCount(steps, toRemove)
    decreases |steps|
  {
    if steps != [] {
      KeptCount(steps[1..], toRemove);
    }
  }

  /** The identifiers the steps carry. */
  function IdSet(steps: seq<PlanStep>): set<string> {
    set i | 0 <= i < |steps| :: steps[i].id
  }

  lemma IdSetCons(steps: seq<PlanStep>)
    requires steps != []
    ensures IdSet(steps) == {steps[0].id} + IdSet(steps[1..])
  {
    var rest := steps[1..];
    forall x | x in IdSet(steps) ensures x in {steps[0].id} + IdSet(rest) {
      var i :| 0 <= i < |steps| && steps[i].id == x;
      if i > 0 {
        assert rest[i - 1].id == x;
      }
    }
    forall x | x in IdSet(rest) ensures x in IdSet(steps) {
      var i :| 0 <= i < |rest| && rest[i].id == x;
      assert steps[i + 1].id == x;
    }
  }

  lemma DistinctCons(steps: seq<PlanStep>)
    requires steps != [] && NoDups(StepIds(steps))
    ensures NoDups(StepIds(steps[1..]))
    ensures steps[0].id !in IdSet(steps[1..])
  {
    var rest := steps[1..];
    forall i, j | 0 <= i < j < |rest| ensures rest[i].id != rest[j].id {
      assert StepIds(steps)[i + 1] == rest[i].id && StepIds(steps)[j + 1] == rest[j].id;
    }
    forall i | 0 <= i < |rest| ensures rest[i].id != steps[0].id {
      assert StepIds(steps)[0] == steps[0].id && StepIds(steps)[i + 1] == rest[i].id;
    }
  }

  /** With distinct identifiers, the ticked steps are as many as the ticked
      identifiers that name a step. */
  lemma {:induction false} RemovedCountDistinct(steps: seq<PlanStep>, toRemove: seq<string>)
    requires NoDups(StepIds(steps))
    ensures RemovedCount(steps, toRemove) == |(set x | x in toRemove) * IdSet(steps)|
    decreases |steps|
  {
    var t := set x | x in toRemove;
    if steps == [] {
      assert t * IdSet(steps) == {};
    } else {
      var s := steps[0];
      var rest := steps[1..];
      DistinctCons(steps);
      RemovedCountDistinct(rest, toRemove);
      IdSetCons(steps);
      IntersectCons(t, s.id, IdSet(rest));
    }
  }

  lemma IntersectCons(t: set<string>, x: string, r: set<string>)
    requires x !in r
    ensures |t * ({x} + r)| == (if x in t then 1 else 0) + |t * r|
  {
    if x in t {
      assert t * ({x} + r) == {x} + t * r;
    } else {
      assert t * ({x} + r) == t * r;
    }
  }

  /** With distinct step identifiers and ticked identifiers that each name a step,
      the plan shrinks by exactly the number of ticked identifiers. */
  lemma KeptCountDistinct(steps: seq<PlanStep>, toRemove: seq<string>)
    requires NoDups(StepIds(steps)) && NoDups(toRemove)
    requires forall k :: 0 <= k < |toRemove| ==> toRemove[k] in StepIds(steps)
    ensures |KeptSteps(steps, toRemove)| == |steps| - |toRemove|
  {
    KeptCount(steps, toRemove);
    RemovedCountDistinct(steps, toRemove);
    var t := set x | x in toRemove;
    assert t * IdSet(steps) == t by {
      forall x | x in t ensures x in IdSet(steps) {
        var k :| 0 <= k < |toRemove| && toRemove[k] == x;
        var i :| 0 <= i < |StepIds(steps)| && StepIds(steps)[i] == x;
        assert steps[i].id == x;
      }
    }
    NoDupsCardinality(toRemove);
  }

  /** A step for the examples below. */
  function Named(id: string, dependsOn: Option<seq<string>>): PlanStep {
    PlanStep(id, "", "", [], [], [], Low, S, dependsOn)
  }

  /** Identifiers are drawn at random and need not be distinct: ticking one shared
      identifier removes both steps that carry it, more than one step per tick. */
  lemma SharedIdRemovesMore()
    ensures var steps := [Named("a", None), Named("a", None)];
      |KeptSteps(steps, ["a"])| == 0 && |steps| - |["a"]| == 1
  {
    var steps := [Named("a", None), Named("a", None)];
    assert steps[0].id in ["a"] && steps[1].id in ["a"];
    assert KeptSteps(steps, ["a"]) == [];
  }

  /** Removal does not touch the surviving steps' dependencies, which may then name
      a step that is gone. */
  lemma RemovalCanLeaveDanglingDependency()
    ensures var steps := [Named("a", None), Named("b", Some(["a"]))];
      var kept := KeptSteps(steps, ["a"]);
      |kept| == 1 && kept[0].dependsOn == Some(["a"]) && "a" !in StepIds(kept)
  {
    var steps := [Named("a", None), Named("b", Some(["a"]))];
    assert steps[0].id in ["a"];
    assert steps[1].id !in ["a"] by {
      assert steps[1].id == "b";
    }
    assert steps[1..] == [Named("b", Some(["a"]))];
    var kept := KeptSteps(steps, ["a"]);
    assert kept == [Named("b", Some(["a"]))];
    assert StepIds(kept) == ["b"];
  }
}
