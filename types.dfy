/** The records the planner, refiner and exporter pass around. */
module Types {
  import opened Wrappers

  /** One analysed source file; `imports` and `exports` may be absent. */
  datatype FileInfo = FileInfo(
    path: string,
    lang: string,
    exports: Option<seq<string>>,
    imports: Option<seq<string>>)

  datatype RepoSummary = RepoSummary(files: seq<FileInfo>)

  datatype Risk = Low | Medium | High

  datatype Effort = S | M | L

  datatype PlanStep = PlanStep(
    id: string,
    title: string,
    rationale: string,
    targetFiles: seq<string>,
    instructions: seq<string>,
    acceptanceCriteria: seq<string>,
    risk: Risk,
    estimatedEffort: Effort,
    dependsOn: Option<seq<string>>)

  datatype Plan = Plan(
    goal: string,
    repoSummary: RepoSummary,
    steps: seq<PlanStep>,
    notes: seq<string>)

  /** The identifiers of `steps`, in order. */
  function StepIds(steps: seq<PlanStep>): seq<string> {
    seq(|steps|, i requires 0 <= i < |steps| => steps[i].id)
  }

  /** The titles of `steps`, in order. */
  function StepTitles(steps: seq<PlanStep>): seq<string> {
    seq(|steps|, i requires 0 <= i < |steps| => steps[i].title)
  }
}
