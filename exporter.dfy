/** `exportPlan` of `exporter.ts`: the `plan.v1` payload a plan is written out as, and
    the path it is written to. */
module Exporter {
  import opened Wrappers
  import opened Seqs
  import opened Types
  import Planner

  /** One step as the coding agent sees it: no risk and no effort, and the
      dependencies always present. */
  datatype PayloadStep = PayloadStep(
    id: string,
    title: string,
    rationale: string,
    targets: seq<string>,
    instructions: seq<string>,
    acceptance: seq<string>,
    dependsOn: seq<string>)

  datatype AgentPayload = AgentPayload(
    kind: string,
    goal: string,
    steps: seq<PayloadStep>,
    repoHints: seq<FileInfo>,
    notes: seq<string>)

  /** `{ format: "agent-json", file }` */
  datatype ExportFormat = AgentJson
  datatype ExportOptions = ExportOptions(format: ExportFormat, file: string)

  /** What `exportPlan` leaves behind: the payload written to `file`, and the
      `{ path }` it resolves to. */
  datatype Exported = Exported(path: string, file: string, payload: AgentPayload)

  const PayloadKind: string := "plan.v1"
  const HintLimit: nat := 50

  /** The payload form of one step. */
  function ToPayloadStep(s: PlanStep): PayloadStep {
    PayloadStep(s.id, s.title, s.rationale, s.targetFiles, s.instructions, s.acceptanceCriteria,
      s.dependsOn.GetOr([]))
  }

  function PayloadSteps(steps: seq<PlanStep>): (r: seq<PayloadStep>)
    ensures |r| == |steps|
  {
    seq(|steps|, i requires 0 <= i < |steps| => ToPayloadStep(steps[i]))
  }

  /** The `agentPayload` object. */
  function Payload(plan: Plan): AgentPayload {
    AgentPayload(PayloadKind, plan.goal, PayloadSteps(plan.steps), Take(plan.repoSummary.files, HintLimit),
      plan.notes)
  }

  /** `exportPlan(plan, opts)`: the payload goes to `opts.file`, and that path comes
      back. */
  function ExportPlan(plan: Plan, opts: ExportOptions): (r: Exported)
    ensures r.path == opts.file && r.file == opts.file
  {
    Exported(opts.file, opts.file, Payload(plan))
  }

  // ---------------------------------------------------------------------------
  // What the payload keeps of the plan.

  /** The kind is fixed, and the goal and notes are those of the plan. */
  lemma PayloadHeader(plan: Plan, opts: ExportOptions)
    ensures var p := ExportPlan(plan, opts).payload;
      p.kind == "plan.v1" && p.goal == plan.goal && p.notes == plan.notes
  {
  }

  /** The payload steps are the plan's steps in their order, with the same
      identifier, title, rationale, targets, instructions and acceptance criteria,
      and the dependencies when there are any, else none. */
  lemma PayloadStepsMatch(plan: Plan, opts: ExportOptions)
    ensures var ps := ExportPlan(plan, opts).payload.steps;
      && |ps| == |plan.steps|
      && forall i :: 0 <= i < |ps| ==>
        var s := plan.steps[i];
        && ps[i].id == s.id && ps[i].title == s.title && ps[i].rationale == s.rationale
        && ps[i].targets == s.targetFiles && ps[i].instructions == s.instructions
        && ps[i].acceptance == s.acceptanceCriteria
        && ps[i].dependsOn == (if s.dependsOn.Some? then s.dependsOn.value else [])
  {
  }

  /** The repository hints are the first 50 analysed files, or all of them when there
      are fewer. */
  lemma RepoHintsPrefix(plan: Plan, opts: ExportOptions)
    ensures var h := ExportPlan(plan, opts).payload.repoHints;
      var files := plan.repoSummary.files;
      && |h| == (if |files| < HintLimit then |files| else HintLimit)
      && h == files[..|h|]
  {
  }

  /** A step read back from its payload form, given the risk and effort the payload
      leaves out. */
  function FromPayloadStep(p: PayloadStep, risk: Risk, effort: Effort): PlanStep {
    PlanStep(p.id, p.title, p.rationale, p.targets, p.instructions, p.acceptance, risk, effort,
      Some(p.dependsOn))
  }

  /** The payload loses risk and effort and the difference between no dependencies
      and an empty list, and nothing else. */
  lemma PayloadStepRoundTrip(s: PlanStep)
    ensures FromPayloadStep(ToPayloadStep(s), s.risk, s.estimatedEffort)
      == s.(dependsOn := Some(s.dependsOn.GetOr([])))
    ensures s.dependsOn.Some? ==> FromPayloadStep(ToPayloadStep(s), s.risk, s.estimatedEffort) == s
  {
  }

  /** Two steps that agree on all but risk and effort have the same payload form. */
  lemma PayloadIgnoresRiskAndEffort(s: PlanStep, risk: Risk, effort: Effort)
    ensures ToPayloadStep(s.(risk := risk, estimatedEffort := effort)) == ToPayloadStep(s)
  {
  }

  /** Shaping the payload steps distributes over concatenation of step lists. */
  lemma PayloadStepsAppend(a: seq<PlanStep>, b: seq<PlanStep>)
    ensures PayloadSteps(a + b) == PayloadSteps(a) + PayloadSteps(b)
  {
  }

  /** The plans `buildPlan` makes have no dependencies, so every payload step lists
      none. */
  lemma BuiltPlanPayloadHasNoDependencies(goal: string, repo: RepoSummary, ids: seq<string>, opts: ExportOptions)
    requires |ids| == Planner.StepCount(Planner.Classify(goal))
    ensures var ps := ExportPlan(Planner.BuildPlan(goal, repo, ids), opts).payload.steps;
      forall i :: 0 <= i < |ps| ==> ps[i].dependsOn == []
  {
    NoDependencies(Planner.BuildPlan(goal, repo, ids).steps);
  }

  lemma NoDependencies(steps: seq<PlanStep>)
    requires forall i :: 0 <= i < |steps| ==> steps[i].dependsOn == None
    ensures forall i :: 0 <= i < |steps| ==> PayloadSteps(steps)[i].dependsOn == []
  {
  }
}
