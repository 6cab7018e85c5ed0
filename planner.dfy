/** `buildPlan` of `planner.ts`: candidate selection, the three narrowed target
    lists, and the choice between the two fixed step templates.

    Step identifiers come from a random source in the original; here they are
    supplied by the caller, one per step of the chosen template, in step order. */
module Planner {
  import opened Wrappers
  import opened Seqs
  import opened Text
  import opened Types
  import opened GoalPatterns

  /** The regular expressions `pick` and the candidate filter test paths with. */
  datatype PathPattern =
    | GoalPattern(keys: seq<string>)
    | NavbarPattern
    | StylePattern
    | UtilPattern

  predicate Test(pat: PathPattern, path: string) {
    match pat
    case GoalPattern(keys) => GoalMatches(keys, path)
    case NavbarPattern => NavbarPath(path)
    case StylePattern => StylePath(path)
    case UtilPattern => UtilPath(path)
  }

  /** `pick(paths, rx, fallback)`: the matching paths when there is at least one,
      otherwise the fallback. */
  function Pick(paths: seq<string>, pat: PathPattern, fallback: seq<string>): (r: seq<string>)
    ensures (exists p :: p in paths && Test(pat, p)) ==>
      && IsSubseq(r, paths)
      && (forall p :: p in r <==> p in paths && Test(pat, p))
      && (forall p :: Test(pat, p) ==> multiset(r)[p] == multiset(paths)[p])
    ensures (forall p :: p in paths ==> !Test(pat, p)) ==> r == fallback
    ensures fallback != [] ==> r != []
  {
    var hits := Filter(paths, p => Test(pat, p));
    FilterIsSubseq(paths, p => Test(pat, p));
    FilterMembers(paths, p => Test(pat, p));
    forall p | Test(pat, p)
      ensures multiset(hits)[p] == multiset(paths)[p]
    {
      FilterMultiset(paths, p => Test(pat, p), p);
    }
    if |hits| > 0 then hits else fallback
  }

  function Paths(files: seq<FileInfo>): seq<string> {
    seq(|files|, i requires 0 <= i < |files| => files[i].path)
  }

  /** The files whose path the goal pattern matches, in file order. */
  function GoalMatchingFiles(files: seq<FileInfo>, keys: seq<string>): seq<FileInfo> {
    Filter(files, (f: FileInfo) => GoalMatches(keys, f.path))
  }

  /** `repoSummary.files.filter(f => rx.test(f.path)).slice(0, 20)` */
  function Candidates(files: seq<FileInfo>, keys: seq<string>): (c: seq<FileInfo>)
    ensures var m := GoalMatchingFiles(files, keys);
      |c| == (if |m| < 20 then |m| else 20) && c == m[..|c|]
    ensures forall f :: f in c ==> f in files && GoalMatches(keys, f.path)
  {
    FilterMembers(files, (f: FileInfo) => GoalMatches(keys, f.path));
    Take(GoalMatchingFiles(files, keys), 20)
  }

  const NavbarFallback: seq<string> := ["src/components/Navbar.tsx", "src/components/Header.tsx"]
  const StyleFallback: seq<string> := ["src/styles/global.css", "tailwind.config.js"]
  const UtilFallback: seq<string> := ["src/utils/theme.ts"]

  /** The file lists the templates are filled with. */
  datatype Targets = Targets(
    candidatePaths: seq<string>,
    navbar: seq<string>,
    style: seq<string>,
    util: seq<string>)

  function PlanTargets(goal: string, files: seq<FileInfo>): Targets {
    var candidatePaths := Paths(Candidates(files, GoalKeywords(goal)));
    var allPaths := Paths(files);
    Targets(
      candidatePaths,
      Pick(candidatePaths, NavbarPattern, NavbarFallback),
      Pick(allPaths, StylePattern, StyleFallback),
      Pick(allPaths, UtilPattern, UtilFallback))
  }

  // ---------------------------------------------------------------------------
  // The two templates.

  datatype Template = DarkModeTemplate | GenericTemplate

  /** The one test that selects the template. */
  function Classify(goal: string): Template {
    if IsDarkMode(goal) then DarkModeTemplate else GenericTemplate
  }

  function StepCount(t: Template): nat {
    match t
    case DarkModeTemplate => 5
    case GenericTemplate => 4
  }

  const TestTargets: seq<string> := ["src/**/__tests__/*.test.{ts,tsx}", ".eslintrc.*"]

  const DarkTitles: seq<string> := [
    "Inventory theme entry points & Navbar mount",
    "Introduce theme manager utility",
    "Wire Navbar toggle control",
    "Define light/dark design tokens & Tailwind config",
    "Add tests & guardrails"]
  const DarkRisks: seq<Risk> := [Low, Low, Medium, Medium, Medium]
  const DarkEfforts: seq<Effort> := [S, S, M, M, M]

  const GenericTitles: seq<string> := [
    "Clarify scope & find relevant files",
    "Introduce supporting utility/module",
    "Refactor target components/services",
    "Add tests & guardrails"]
  const GenericRisks: seq<Risk> := [Low, Low, Medium, Medium]
  const GenericEfforts: seq<Effort> := [S, S, M, M]

  /** The fixed wording of one template step. */
  datatype Prose = Prose(rationale: string, instructions: seq<string>, acceptance: seq<string>)

  /** The wording of the dark-mode steps, in step order. */
  function DarkProse(i: nat): Prose
    requires i < 5
  {
    if i == 0 then
      Prose("Dark mode ke liye pehle relevant touchpoints identify karna zaroori hai.",
        ["Search terms: 'Navbar', 'Header', 'ThemeProvider', 'dark', 'tailwind.config', 'global.css'.",
         "List all files where theme ya color-scheme handle ho raha hai."],
        ["A checklist of affected components/styles is added to plan notes.",
         "No obvious Navbar/theme file is missed (spot-check by search)."])
    else if i == 1 then
      Prose("Centralized toggle logic \U{2192} reusable & testable.",
        ["Create/extend 'src/utils/theme.ts' with: getPreferredTheme(), applyTheme(theme), toggleTheme().",
         "Implement: data-theme attribute on <html>, media query '(prefers-color-scheme: dark)'.",
         "Persist choice via localStorage (key: 'theme')."],
        ["Toggling works without page reload.",
         "Theme preference persists across refresh and new tabs.",
         "No TypeScript errors."])
    else if i == 2 then
      Prose("User-facing switch is needed to trigger theme changes.",
        ["Add a toggle button/icon in Navbar; onClick \U{2192} toggleTheme().",
         "Use accessible pattern: role='switch' or aria-pressed; visible focus states.",
         "Show current state (icon/sr-only text) based on data-theme."],
        ["Toggle is keyboard-accessible.",
         "Navbar reflects theme instantly on click.",
         "No layout shift/regression."])
    else if i == 3 then
      Prose("Consistent colors via CSS vars/Tailwind prevents drift.",
        ["In global.css: define :root vars for light, and [data-theme='dark'] overrides.",
         "Tailwind: set darkMode: 'class'; map colors to CSS vars where applicable.",
         "Audit key components (Navbar, body bg, text, links) to use tokens."],
        ["Both themes readable with sufficient contrast (WCAG AA for text).",
         "No hardcoded hex colors remain in Navbar.",
         "Tailwind builds successfully."])
    else 
      Prose("Prevent regressions and enforce correct theme usage.",
        ["Unit tests: theme util functions (applyTheme/toggleTheme).",
         "Component test: Navbar renders correct icon/state under both themes.",
         "ESLint rule/config: forbid hardcoded color literals in specified folders."],
        ["Tests pass locally/CI.",
         "ESLint flags hardcoded colors if reintroduced."])
  }

  /** The wording of the generic steps, in step order. */
  function GenericProse(i: nat): Prose
    requires i < 4
  {
    if i == 0 then
      Prose("Right files ko target kiye bina plan flaky hoga.",
        ["Search by goal keywords across repo; list affected files.",
         "Confirm scope with brief notes (what\U{2019}s in/out)."],
        ["Short scope note present.",
         "At least 3 likely target files identified (or rationale if fewer)."])
    else if i == 1 then
      Prose("Centralize logic to avoid duplication.",
        ["Create/extend utility with minimal API for this goal.",
         "Add unit tests for the utility."],
        ["No TS errors; tests pass.",
         "Call sites can import the utility cleanly."])
    else if i == 2 then
      Prose("Apply utility and remove ad-hoc patterns.",
        ["Replace ad-hoc logic with utility calls.",
         "Keep changes small and commit logically."],
        ["No runtime regressions in changed areas.",
         "Type checks pass across refactored files."])
    else 
      Prose("Prevent regressions for this goal\U{2019}s patterns.",
        ["Write tests covering new behavior.",
         "Lint/CI check for anti-patterns linked to this goal."],
        ["Tests pass locally/CI.",
         "ESLint flags known anti-patterns if reintroduced."])
  }

  /** The target list each dark-mode step is given. */
  function DarkTargets(t: Targets): seq<seq<string>> {
    [Dedup(t.candidatePaths + t.navbar + t.style), t.util, t.navbar, t.style, TestTargets]
  }

  /** The wording of the five dark-mode steps. */
  function DarkWording(): (r: seq<Prose>)
    ensures |r| == 5
  {
    seq(5, i requires 0 <= i < 5 => DarkProse(i))
  }

  /** The wording of the four generic steps. */
  function GenericWording(): (r: seq<Prose>)
    ensures |r| == 4
  {
    seq(4, i requires 0 <= i < 4 => GenericProse(i))
  }

  /** The target list each generic step is given. */
  function GenericTargets(t: Targets): seq<seq<string>> {
    [Dedup(t.candidatePaths),
     if |t.util| > 0 then t.util else ["src/utils/index.ts"],
     t.candidatePaths,
     TestTargets]
  }

  /** Step `i` of a template takes the `i`-th identifier, title, wording, target
      list and labels; no step sets `dependsOn`. */
  function Fill(ids: seq<string>, titles: seq<string>, prose: seq<Prose>, targets: seq<seq<string>>,
                risks: seq<Risk>, efforts: seq<Effort>): seq<PlanStep>
    requires |ids| == |titles| == |prose| == |targets| == |risks| == |efforts|
  {
    seq(|ids|, i requires 0 <= i < |ids| =>
      PlanStep(ids[i], titles[i], prose[i].rationale, targets[i], prose[i].instructions,
        prose[i].acceptance, risks[i], efforts[i], None))
  }

  /** Each field of the filled steps lists the corresponding argument. */
  lemma FillFields(ids: seq<string>, titles: seq<string>, prose: seq<Prose>, targets: seq<seq<string>>,
                   risks: seq<Risk>, efforts: seq<Effort>)
    requires |ids| == |titles| == |prose| == |targets| == |risks| == |efforts|
    ensures var steps := Fill(ids, titles, prose, targets, risks, efforts);
      && StepIds(steps) == ids && StepTitles(steps) == titles && TargetLists(steps) == targets
      && Risks(steps) == risks && Efforts(steps) == efforts
      && forall i :: 0 <= i < |steps| ==> steps[i].dependsOn == None
  {
  }

  const PlanNotes: seq<string> := [
    "Planner auto-focuses on files matching goal-derived keywords.",
    "You can reorder/remove steps before export."]

  function Risks(steps: seq<PlanStep>): seq<Risk> {
    seq(|steps|, i requires 0 <= i < |steps| => steps[i].risk)
  }

  function Efforts(steps: seq<PlanStep>): seq<Effort> {
    seq(|steps|, i requires 0 <= i < |steps| => steps[i].estimatedEffort)
  }

  function TargetLists(steps: seq<PlanStep>): seq<seq<string>> {
    seq(|steps|, i requires 0 <= i < |steps| => steps[i].targetFiles)
  }

  /** `buildPlan(goal, repoSummary)`, with `ids` standing for the values the
      successive `id()` calls return. */
  function BuildPlan(goal: string, repo: RepoSummary, ids: seq<string>): (plan: Plan)
    requires |ids| == StepCount(Classify(goal))
    ensures plan.goal == goal && plan.repoSummary == repo && plan.notes == PlanNotes
    ensures IsDarkMode(goal) ==>
      && StepTitles(plan.steps) == DarkTitles
      && Risks(plan.steps) == [Low, Low, Medium, Medium, Medium]
      && Efforts(plan.steps) == [S, S, M, M, M]
      && TargetLists(plan.steps) == DarkTargets(PlanTargets(goal, repo.files))
    ensures !IsDarkMode(goal) ==>
      && StepTitles(plan.steps) == GenericTitles
      && Risks(plan.steps) == [Low, Low, Medium, Medium]
      && Efforts(plan.steps) == [S, S, M, M]
      && TargetLists(plan.steps) == GenericTargets(PlanTargets(goal, repo.files))
    ensures StepIds(plan.steps) == ids
    ensures forall i :: 0 <= i < |plan.steps| ==> plan.steps[i].dependsOn == None
  {
    var t := PlanTargets(goal, repo.files);
    match Classify(goal)
    case DarkModeTemplate =>
      var prose := DarkWording();
      FillFields(ids, DarkTitles, prose, DarkTargets(t), DarkRisks, DarkEfforts);
      Plan(goal, repo, Fill(ids, DarkTitles, prose, DarkTargets(t), DarkRisks, DarkEfforts), PlanNotes)
    case GenericTemplate =>
      var prose := GenericWording();
      FillFields(ids, GenericTitles, prose, GenericTargets(t), GenericRisks, GenericEfforts);
      Plan(goal, repo, Fill(ids, GenericTitles, prose, GenericTargets(t), GenericRisks, GenericEfforts), PlanNotes)
  }

  // ---------------------------------------------------------------------------
  // Properties of the target lists.

  lemma {:induction false} PathsSubseq(a: seq<FileInfo>, b: seq<FileInfo>)
    requires IsSubseq(a, b)
    ensures IsSubseq(Paths(a), Paths(b))
    decreases |b|
  {
    if a != [] {
      assert Paths(b)[1..] == Paths(b[1..]);
      if a[0] == b[0] && IsSubseq(a[1..], b[1..]) {
        PathsSubseq(a[1..], b[1..]);
        assert Paths(a)[1..] == Paths(a[1..]);
      } else {
        PathsSubseq(a, b[1..]);
      }
    }
  }

  /** The candidates are the first min(20, #matches) matching files in file order;
      their paths are a subsequence of all paths and each matches the goal. */
  lemma CandidatesAreLeadingMatches(goal: string, files: seq<FileInfo>)
    ensures var keys := GoalKeywords(goal);
      var c := Candidates(files, keys);
      && IsSubseq(c, files)
      && IsSubseq(PlanTargets(goal, files).candidatePaths, Paths(files))
      && (forall p :: p in PlanTargets(goal, files).candidatePaths ==> GoalMatches(keys, p))
  {
    var keys := GoalKeywords(goal);
    var m := GoalMatchingFiles(files, keys);
    var c := Candidates(files, keys);
    FilterIsSubseq(files, (f: FileInfo) => GoalMatches(keys, f.path));
    PrefixIsSubseq(m, |c|);
    SubseqTrans(c, m, files);
    PathsSubseq(c, files);
    forall p | p in Paths(c)
      ensures GoalMatches(keys, p)
    {
      var i :| 0 <= i < |c| && Paths(c)[i] == p;
      assert c[i] in c;
    }
  }

  /** The navbar targets are candidate paths that match the navbar pattern, in
      candidate order, or exactly the two conventional fallback paths when no
      candidate matches. */
  lemma NavbarTargetsShape(goal: string, files: seq<FileInfo>)
    ensures var t := PlanTargets(goal, files);
      || (IsSubseq(t.navbar, t.candidatePaths) && t.navbar != [] && forall p :: p in t.navbar ==> NavbarPath(p))
      || (t.navbar == NavbarFallback && forall p :: p in t.candidatePaths ==> !NavbarPath(p))
  {
  }

  /** The utility targets are never empty, so the generic template's own
      fallback `["src/utils/index.ts"]` for its second step is never used. */
  lemma UtilTargetsNonEmpty(goal: string, files: seq<FileInfo>)
    ensures PlanTargets(goal, files).util != []
    ensures GenericTargets(PlanTargets(goal, files))[1] == PlanTargets(goal, files).util
  {
  }

  /** The first dark-mode step targets each file of the candidates, the navbar
      targets and the style targets once, in order of first appearance. */
  lemma DarkInventoryTargets(goal: string, repo: RepoSummary, ids: seq<string>)
    requires IsDarkMode(goal) && |ids| == 5
    ensures var t := PlanTargets(goal, repo.files);
      var all := t.candidatePaths + t.navbar + t.style;
      var r := BuildPlan(goal, repo, ids).steps[0].targetFiles;
      && NoDups(r)
      && (forall p :: p in r <==> p in t.candidatePaths || p in t.navbar || p in t.style)
      && (forall i, j :: 0 <= i < j < |r| ==> IndexOf(all, r[i]) < IndexOf(all, r[j]))
  {
    var t := PlanTargets(goal, repo.files);
    DedupFirstOccurrenceOrder(t.candidatePaths + t.navbar + t.style);
  }

  /** When no two files of the repository share a path, the first generic step
      targets exactly the candidate paths, like the third: de-duplicating them
      changes nothing. */
  lemma GenericInventoryTargets(goal: string, repo: RepoSummary, ids: seq<string>)
    requires !IsDarkMode(goal) && |ids| == 4 && NoDups(Paths(repo.files))
    ensures var steps := BuildPlan(goal, repo, ids).steps;
      && steps[0].targetFiles == PlanTargets(goal, repo.files).candidatePaths
      && steps[2].targetFiles == steps[0].targetFiles
  {
    var t := PlanTargets(goal, repo.files);
    CandidatePathsDistinct(goal, repo.files);
    GenericInventoryOf(t);
    var steps := BuildPlan(goal, repo, ids).steps;
    assert TargetLists(steps) == GenericTargets(t);
    assert TargetLists(steps)[0] == steps[0].targetFiles;
    assert TargetLists(steps)[2] == steps[2].targetFiles;
  }

  lemma CandidatePathsDistinct(goal: string, files: seq<FileInfo>)
    requires NoDups(Paths(files))
    ensures NoDups(PlanTargets(goal, files).candidatePaths)
  {
    CandidatesAreLeadingMatches(goal, files);
    SubseqNoDups(PlanTargets(goal, files).candidatePaths, Paths(files));
  }

  lemma GenericInventoryOf(t: Targets)
    requires NoDups(t.candidatePaths)
    ensures GenericTargets(t)[0] == t.candidatePaths == GenericTargets(t)[2]
  {
    DedupOfNoDups(t.candidatePaths);
  }

  /** A goal that chooses the dark-mode template also fires the theme rule, so its
      keyword list starts with the theme group. */
  lemma DarkModeStartsWithThemeGroup(goal: string)
    requires IsDarkMode(goal)
    ensures |GoalKeywords(goal)| >= 5 && GoalKeywords(goal)[..5] == Group(ThemeRule)
  {
    var g := Lower(goal);
    FiredKeywordsInOrder(g);
    LowerIdempotent(goal);
    assert ThemeTrigger(g);
  }

  // ---------------------------------------------------------------------------
  // Two goals that show the theme rule and the dark-mode test apart. A pattern
  // that stays silent is shown to do so through a character that one of its
  // literal pieces needs and the lowered goal lacks.

  /** A goal reading "Color scheme", in any letter case, fires the theme rule but
      is not a dark-mode goal: the plan searches with the theme keywords first yet
      follows the four-step template. */
  lemma ColorSchemeGoal(goal: string)
    requires Lower(goal) == "color scheme"
    ensures Fires(ThemeRule, goal)
    ensures |GoalKeywords(goal)| >= 5 && GoalKeywords(goal)[..5] == Group(ThemeRule)
    ensures Classify(goal) == GenericTemplate
  {
    var s := Lower(goal);
    LowerIdempotent(goal);
    ColorSchemeFacts(s);
    FiresLowered(ThemeRule, goal);
    FiredKeywordsInOrder(s);
  }

  lemma ColorSchemeFacts(s: string)
    requires s == "color scheme"
    ensures ThemeTrigger(s) && !IsDarkMode(s)
  {
    assert Lower(s) == s;
    ColorSchemeMatches(s);
    ColorSchemeNotDark(s);
  }

  lemma ColorSchemeMatches(s: string)
    requires s == "color scheme"
    ensures Matches(s, ["color", "scheme"], Spaces)
  {
    var ps := ["color", "scheme"];
    assert ps[0] == "color" && ps[1..] == ["scheme"];
    assert StartsAt(s, 0, "color") && StartsAt(s, 6, "scheme") && IsSpace(s[5]);
    assert GapRun(s, Spaces, 5, 6) && PiecesAt(s, 6, ["scheme"], Spaces);
    assert PiecesAt(s, 0, ps, Spaces);
  }

  lemma ColorSchemeNotDark(s: string)
    requires s == "color scheme"
    ensures !Matches(s, ["dark", "mode"], Spaces) && !Occurs(s, "theme")
  {
    assert 'd' !in s && 't' !in s;
    AbsentCharBlocksMatch(s, ["dark", "mode"], Spaces, 0, 'd');
    AbsentCharBlocks(s, "theme", 't');
  }

  /** The third alternative of the theme trigger asks for the two characters "/?"
      between "light" and "dark", so a goal reading "Light/Dark" does not fire the
      theme rule. */
  lemma LightSlashDarkGoal(goal: string)
    requires Lower(goal) == "light/dark"
    ensures !Fires(ThemeRule, goal)
    ensures "dark" !in GoalKeywords(goal)
  {
    var s := Lower(goal);
    LightSlashDarkFacts(s);
    FiresLowered(ThemeRule, goal);
    FiredMembership(RuleOrder, s, "dark");
    forall r {
      DarkOnlyInTheme(r);
    }
    assert "dark" !in FallbackKeywords by {
      assert "dark"[0] == 'd';
      assert forall k :: k in FallbackKeywords ==> k[0] != 'd';
    }
  }

  /** Only the theme group holds "dark". */
  lemma DarkOnlyInTheme(r: Rule)
    ensures "dark" in Group(r) ==> r == ThemeRule
  {
    assert "dark"[0] == 'd';
    match r
    case ThemeRule =>
    case NavRule => assert forall k :: k in Group(r) ==> k[0] != 'd';
    case LoadingRule => assert forall k :: k in Group(r) ==> k[0] != 'd';
    case HttpRule => assert forall k :: k in Group(r) ==> k[0] != 'd';
  }

  lemma LightSlashDarkFacts(s: string)
    requires s == "light/dark"
    ensures !ThemeTrigger(s)
  {
    assert 'm' !in s && 'e' !in s && '?' !in s && 'c' !in s;
    assert Lower(s) == s;
    AbsentCharBlocksMatch(s, ["dark", "mode"], Spaces, 1, 'm');
    AbsentCharBlocks(s, "theme", 'e');
    AbsentCharBlocksMatch(s, ["light", "/?", "dark"], Spaces, 1, '?');
    AbsentCharBlocksMatch(s, ["color", "scheme"], Spaces, 0, 'c');
  }
}
