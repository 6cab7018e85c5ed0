# traycer planning layer, modelled in Dafny

The tool turns a free-text goal into a fixed plan for a coding agent. It works in four stages:

1. `parseCLI` reads the goals, the `--yes` switch and the output directory from the command line.
2. `buildPlan` derives keyword groups from the goal and picks repository files whose paths contain a keyword. It then fills one of two fixed step templates: five dark-mode steps or four generic ones.
3. Unless `--yes` was given, `refinePlanInteractive` removes the steps the operator ticks. It overwrites `plan.steps` of the caller's object.
4. `exportPlan` shapes the plan into the `plan.v1` payload and writes it to `<outDir>/<slug(goal)>.json`.

This project models those four stages and `slug`, and proves what each promises.

Modules:

- `Wrappers` holds `Option` and `Result`.
- `Seqs` holds sequence helpers: `filter`, `slice(0, n)`, first-occurrence dedup (`new Set`), subsequences.
- `Text` holds the JavaScript string built-ins used here: `toLowerCase` (ASCII letters only), white space as `\s` and `trim` see it, `split` and `join` on one character, and `split(/\r?\n/)`.
- `Types` holds `FileInfo`, `PlanStep` and `Plan` of `types.ts`.
- `GoalPatterns` holds `derivePatternsFromGoal` and the fixed regular expressions of `planner.ts`, written as predicates.
  - `DeriveKeywords` is the method that builds the keyword list step by step, as the source does.
  - `GoalKeywords` is its specification.
- `Planner` holds `pick` and `buildPlan`.
- `Cli` holds `parseCLI`.
  - `ParseCli` is the loop itself.
  - It is proved equal to `ParseSpec`, a two-layer specification:
    - `Tokenize` cuts the arguments into the options the loop sees, each with the value it consumes.
    - `Run` folds the tokens over the parser state.
  - `Untokenize` is the inverse of `Tokenize`.
- `Slugs` holds `slug`.
- `Exporter` holds the payload of `exportPlan`.
- `Refiner` holds the in-place step filter.
  - `PlanObject` is a class whose fields are the plan's.
  - `RefinePlan` is a method that modifies `steps` only.

How the environment is modelled:

- Step identifiers come from a random source in the original. Here the caller supplies them, one per template step.
- The file `--goals-file` reads is looked up in a map from readable paths to their text.
- The operator's choice in the refiner is the list of identifiers to remove.

The theme trigger's alternative `light\s*\/\?\s*dark` on `traycer-assignment-ready/src/planner.ts:10` needs a literal `/?` between the words, so a goal reading just "light/dark" does not fire it (`Planner.LightSlashDarkGoal`).

The constants of the model stand for the literals of the source:

- `GoalPatterns.RuleOrder` is the order of the four `if`s at `traycer-assignment-ready/src/planner.ts:10-23`.
- `GoalPatterns.FallbackKeywords` is the fallback list at `traycer-assignment-ready/src/planner.ts:26`.
- `Planner.NavbarFallback`, `Planner.StyleFallback` and `Planner.UtilFallback` are the fallbacks of the three `pick` calls at `traycer-assignment-ready/src/planner.ts:46`, `:52` and `:58`.
- `Planner.TestTargets` is the test-file list at `traycer-assignment-ready/src/planner.ts:135` and `:197`.
- `Planner.PlanNotes` is the notes list at `traycer-assignment-ready/src/planner.ts:214-217`.
- The titles, risks and efforts of the two templates run from `traycer-assignment-ready/src/planner.ts:67` to `:206`.
- `Cli.DefaultOutDir` is at `traycer-assignment-ready/src/index.ts:19` and `Cli.DefaultGoal` at `traycer-assignment-ready/src/index.ts:39`.

## Model

| member | source | states |
|---|---|---|
| GoalPatterns.ThemeTrigger | traycer-assignment-ready/src/planner.ts:10 | The theme rule's test on the lowered text. It is a definition without a contract. It fires on "dark" then "mode", "light" then the literal "/?" then "dark", or "color" then "scheme", each pair with only spaces between, or on "theme" anywhere. `LightSlashDarkFacts` and `ColorSchemeFacts` state what it decides for two goals. |
| GoalPatterns.NavTrigger | traycer-assignment-ready/src/planner.ts:13 | The navigation rule's test, a definition without a contract: "navbar", "nav", "header" or "topbar", or "app" then "bar" with only spaces between. |
| GoalPatterns.LoadingTrigger | traycer-assignment-ready/src/planner.ts:17 | The loading rule's test, a definition without a contract: "skeleton", "loading" or "placeholder". |
| GoalPatterns.HttpTrigger | traycer-assignment-ready/src/planner.ts:21 | The HTTP rule's test, a definition without a contract: "axios", "fetch", "http" or "request". |
| GoalPatterns.IsDarkMode | traycer-assignment-ready/src/planner.ts:62 | The template test, a definition without a contract: "dark" then "mode" with only spaces between, or "theme", ignoring case. `DarkModeStartsWithThemeGroup` proves that the keywords of such a goal start with the theme group. |
| GoalPatterns.Group | traycer-assignment-ready/src/planner.ts:11-22 | The keywords each rule pushes, as a definition without a contract: dark, theme, toggle, color, scheme; navbar, header, layout; skeleton, loading, placeholder; axios, fetch, api, service. `GroupWords` proves that each is a plain lower-case word. |
| GoalPatterns.FiredKeywords | traycer-assignment-ready/src/planner.ts:10-23 | The groups of the rules that fire on the text, concatenated in the order of the rules given. It is a definition without a contract; with `RuleOrder` it is the push order of the four `if`s. `FiredKeywordsInOrder`, `FiredMembership` and `FiredEmpty` state its properties. |
| GoalPatterns.GoalKeywords | traycer-assignment-ready/src/planner.ts:6-26 | The keyword list as a definition without a contract: the groups of the firing rules in rule order, or the fallback when none fires. `DeriveKeywords`, `KeywordMembership`, `KeywordsNonEmpty` and `FallbackExactlyWhenNoRuleFires` state its properties. |
| GoalPatterns.DeriveKeywords | traycer-assignment-ready/src/planner.ts:6-26 | The keys pushed by the four independent tests and the fallback are `GoalKeywords(goal)`. The list is never empty. It is the fallback exactly when no rule fires on the goal. |
| GoalPatterns.FiredKeywordsInOrder | traycer-assignment-ready/src/planner.ts:10-23 | The fired keywords are the theme, nav, loading and http groups, each present exactly when its trigger holds, concatenated in that order. |
| GoalPatterns.FiredMembership | traycer-assignment-ready/src/planner.ts:10-23 | For any rule list, a keyword is among the fired keywords iff it is in the group of a listed rule that fires. |
| GoalPatterns.FiredEmpty | traycer-assignment-ready/src/planner.ts:10-26 | No keyword is collected iff no listed rule fires. This is the condition under which the fallback is pushed. |
| GoalPatterns.FiresLowered | traycer-assignment-ready/src/planner.ts:7 | Testing the lowered goal with the case-insensitive triggers gives the same answer as testing the goal. |
| GoalPatterns.KeywordsNonEmpty | traycer-assignment-ready/src/planner.ts:26 | The keyword list is never empty. |
| GoalPatterns.FallbackExactlyWhenNoRuleFires | traycer-assignment-ready/src/planner.ts:26 | The list is `util, config, index, app, layout` iff none of the four rules fires. |
| GoalPatterns.FallbackWhenNoneFires | traycer-assignment-ready/src/planner.ts:26 | For any rule list, the fired keywords, or the fallback when there are none, are the fallback iff no listed rule fires. |
| GoalPatterns.KeywordMembership | traycer-assignment-ready/src/planner.ts:10-26 | If some rule fires, a keyword is in the list iff it is in the group of a rule that fires. Otherwise it is in the list iff it is in the fallback. |
| GoalPatterns.Escape | traycer-assignment-ready/src/planner.ts:28 | Escaping never shortens a keyword. |
| GoalPatterns.EscapeWord | traycer-assignment-ready/src/planner.ts:28 | A keyword without regular-expression metacharacters is left unchanged by the escape. |
| GoalPatterns.PatternSource | traycer-assignment-ready/src/planner.ts:28 | The pattern text, a definition without a contract: each keyword escaped, joined by `\|`. `PatternAlternatives` proves that splitting it at `\|` gives back the keywords. |
| GoalPatterns.GoalMatches | traycer-assignment-ready/src/planner.ts:28 | `rx.test(path)` for the compiled pattern, a definition without a contract: some keyword occurs in the path, ignoring case. `PatternAlternatives` shows that the pattern text is the plain alternation of the keywords this test reads. |
| GoalPatterns.GroupWords | traycer-assignment-ready/src/planner.ts:11-26 | Every keyword of every group is such a plain word. |
| GoalPatterns.KeywordsAreWords | traycer-assignment-ready/src/planner.ts:8-26 | Every keyword collected for any goal is a plain word. |
| GoalPatterns.PatternAlternatives | traycer-assignment-ready/src/planner.ts:28 | The pattern source, split at its `\|` separators, gives back exactly the keyword list. So the compiled pattern is the alternation of the keywords as literals, and `GoalMatches` (some keyword occurs in the path, ignoring case) is what it tests. |
| GoalPatterns.PiecesAtOccur | traycer-assignment-ready/src/planner.ts:10 | Where a pattern of literals separated by gaps matches, each literal occurs. |
| GoalPatterns.AbsentCharBlocksMatch | traycer-assignment-ready/src/planner.ts:10 | A pattern with a literal holding a character that the text lacks does not match. |
| Planner.Test | traycer-assignment-ready/src/planner.ts:40-57 | `rx.test(path)` for the goal pattern and the three fixed path patterns, dispatching to `GoalMatches`, `NavbarPath`, `StylePath` and `UtilPath`. It is a definition without a contract. |
| GoalPatterns.NavbarPath | traycer-assignment-ready/src/planner.ts:45 | The navbar path pattern, a definition without a contract: "navbar", "header", "topbar", or "app" and "bar" joined by nothing or one of `-`, `_`, `/`, ignoring case. `NavbarTargetsShape` uses it. |
| GoalPatterns.StylePath | traycer-assignment-ready/src/planner.ts:51 | The style path pattern, a definition without a contract: "global.css" or "globals.css", "style/" or "styles/" followed later on the same line by ".css", or "tailwind.config.js" or "tailwind.config.ts", ignoring case. |
| GoalPatterns.UtilPath | traycer-assignment-ready/src/planner.ts:57 | The utility path pattern, a definition without a contract: "util/" or "utils/", then later on the same line "theme", "http", "api" or "request", then ".ts", ignoring case. |
| Planner.Pick | traycer-assignment-ready/src/planner.ts:31-34 | When some path matches, the result is exactly the matching paths, in input order and with their multiplicities. When none matches, it is the fallback. With a non-empty fallback it is never empty. |
| Planner.Paths | traycer-assignment-ready/src/planner.ts:38 | `files.map(f => f.path)`: the path of each file, in file order. It is a definition without a contract; `PathsSubseq` proves that it preserves subsequences. |
| Planner.Candidates | traycer-assignment-ready/src/planner.ts:40 | The candidates are the first min(20, number of matches) files whose path matches the goal pattern, in file order. Each one is a file of the repository. |
| Planner.CandidatesAreLeadingMatches | traycer-assignment-ready/src/planner.ts:40-41 | The candidates are a subsequence of the files. Their paths are a subsequence of all paths, and each matches the goal keywords. |
| Planner.PathsSubseq | traycer-assignment-ready/src/planner.ts:38-41 | Mapping to paths preserves the subsequence relation. |
| Planner.PlanTargets | traycer-assignment-ready/src/planner.ts:37-59 | The candidate, navbar, style and utility lists, as a definition without a contract. `CandidatesAreLeadingMatches`, `NavbarTargetsShape` and `UtilTargetsNonEmpty` state their properties. |
| Planner.NavbarTargetsShape | traycer-assignment-ready/src/planner.ts:43-47 | Either the navbar targets are a non-empty subsequence of the candidate paths, each matching the navbar pattern, or they are exactly the two-path fallback and no candidate matches. |
| Planner.UtilTargetsNonEmpty | traycer-assignment-ready/src/planner.ts:55-59 | The util targets are never empty, so the generic step 2 always gets them and `["src/utils/index.ts"]` is never used. |
| Planner.Classify | traycer-assignment-ready/src/planner.ts:62-64 | The dark-mode template exactly when `IsDarkMode` holds, otherwise the generic one. It is a definition without a contract; `BuildPlan` states the plan each choice gives. |
| Planner.DarkTargets | traycer-assignment-ready/src/planner.ts:69-135 | The five dark-mode target lists, as a definition without a contract: the de-duplicated concatenation of candidates, navbar and style lists, then the utility, navbar, style and test lists. `DarkInventoryTargets` states the properties of the first. |
| Planner.GenericTargets | traycer-assignment-ready/src/planner.ts:152-197 | The four generic target lists, as a definition without a contract: the de-duplicated candidates, the utility list or `src/utils/index.ts` when it is empty, the candidates, then the test list. `UtilTargetsNonEmpty` and `GenericInventoryTargets` state their properties. |
| Planner.Fill | traycer-assignment-ready/src/planner.ts:64-208 | Step `i` takes the `i`-th identifier, title, wording, target list, risk and effort, and sets no `dependsOn`. It is a definition without a contract; `FillFields` states the contract. |
| Planner.FillFields | traycer-assignment-ready/src/planner.ts:64-208 | Filling a template gives steps whose ids, titles, target lists, risks and efforts are the given columns, in order, and no step has dependencies. |
| Planner.BuildPlan | traycer-assignment-ready/src/planner.ts:36-219 | The plan keeps the goal and repository summary unchanged and carries the two fixed notes. A goal matching `dark\s*mode\|theme` gets the five dark-mode titles, with risks low, low, medium, medium, medium and efforts S, S, M, M, M, and the dark target lists. Any other goal gets the four generic titles, with risks low, low, medium, medium and efforts S, S, M, M, and the generic target lists. The ids are the supplied ones, in order. No step sets `dependsOn`. |
| Planner.DarkInventoryTargets | traycer-assignment-ready/src/planner.ts:69 | The first dark step's targets have no duplicates. They hold exactly the elements of the candidate, navbar and style lists, ordered by first occurrence in their concatenation. |
| Planner.GenericInventoryTargets | traycer-assignment-ready/src/planner.ts:152-182 | When the repository's file paths are distinct, the first generic step targets exactly the candidate paths, the same list as the third step. |
| Planner.DarkModeStartsWithThemeGroup | traycer-assignment-ready/src/planner.ts:10-62 | A goal that selects the dark template fires the theme rule, so its keywords start with the theme group. |
| Planner.ColorSchemeGoal | traycer-assignment-ready/src/planner.ts:10-62 | The goal "color scheme" fires the theme rule, so its keywords start with the theme group, yet it gets the generic template. |
| Planner.ColorSchemeFacts | traycer-assignment-ready/src/planner.ts:10-62 | "color scheme" satisfies the theme trigger but not the dark-mode test. |
| Planner.LightSlashDarkGoal | traycer-assignment-ready/src/planner.ts:10 | The goal "light/dark" does not fire the theme rule, and "dark" is not among its keywords. |
| Planner.LightSlashDarkFacts | traycer-assignment-ready/src/planner.ts:10 | "light/dark" does not satisfy the theme trigger. |
| Cli.ParseCli | traycer-assignment-ready/src/index.ts:15-42 | The loop over the arguments after the first two, with the index advanced past consumed values, returns exactly `ParseSpec(argv, files)`, error cases included. |
| Cli.Turn | traycer-assignment-ready/src/index.ts:22-35 | One pass of the loop body moves the index forward by one or two places, staying at most one past the end. Either the scan from the old index and state equals the scan from the new index and state, or the scan from the old index fails with the error the body reports. |
| Cli.ScanIsRun | traycer-assignment-ready/src/index.ts:21-36 | Scanning from any index is running the tokens of the remaining arguments. |
| Cli.ScanNext | traycer-assignment-ready/src/index.ts:22-35 | One loop iteration, per branch. `--yes`/`-y` sets `yes`. `--out`/`-o` takes the next argument, or keeps the directory when there is none. `--goals` replaces the goals with the split value, or with the split of `""`. `--goals-file` fails without a path or with an unreadable one, and otherwise replaces the goals with the file's lines. Anything else is appended as a goal. |
| Cli.Scan | traycer-assignment-ready/src/index.ts:21-36 | The loop from index `i` with the given state: the state itself once `i` is past the end, otherwise the turn at `i`. It is a definition without a contract; `ParseCli`'s invariant is stated against it, and `ScanIsRun` proves it equal to `Run` on the tokens of the rest. |
| Cli.Advance | traycer-assignment-ready/src/index.ts:22-35 | One turn at index `i`, as a definition without a contract. A switch moves on by one. `--out` and `--goals` move on by two, taking `args[i + 1]` when it exists. `--goals-file` moves on by two, or fails when the path is missing or unreadable. A positional goal is appended and moves on by one. `ScanNext` restates it branch by branch for `Turn`. |
| Cli.ParseSpecByScan | traycer-assignment-ready/src/index.ts:16-41 | The specification is the scan from index 0 of `argv` without its first two entries, followed by the default-goal rule. |
| Cli.ParseSpec | traycer-assignment-ready/src/index.ts:15-42 | What `parseCLI` returns or throws, as a definition without a contract: the tokens of the user arguments run from the initial state, then the default-goal rule. `ParseCli` is proved equal to it; `ParseFails`, `ParseSwitches` and `ParseGoals` state its properties. |
| Cli.UserArgs | traycer-assignment-ready/src/index.ts:16 | `argv.slice(2)`, empty when there are fewer than two entries. It is a definition without a contract. |
| Cli.Tokenize | traycer-assignment-ready/src/index.ts:21-36 | The arguments cut into the loop's steps, as a definition without a contract: an option taking a value swallows the next argument, whatever it is. `UntokenizeTokenize` proves that spelling the tokens back gives the arguments, and `TokenizeUntokenize` proves the converse for well-formed token lists. |
| Cli.Step | traycer-assignment-ready/src/index.ts:22-35 | The effect of one loop step, as a definition without a contract: set `yes`, set `outDir` (kept when the value is missing), replace the goals from `--goals` or the goals file, or append a positional goal. A missing or unreadable goals file is an error. `ScanNext` and `ScanIsRun` connect the loop body to it. |
| Cli.Run | traycer-assignment-ready/src/index.ts:21-36 | The steps applied in order, stopping at the first error. It is a definition without a contract; `ScanIsRun`, `RunFails`, `RunYes`, `RunOutDir` and `RunGoals` state its properties. |
| Cli.Finish | traycer-assignment-ready/src/index.ts:38-40 | The default goal is installed when no goal was collected, and the state is otherwise unchanged. It is a definition without a contract; `GoalsNeverEmpty` states the consequence. |
| Cli.UntokenizeTokenize | traycer-assignment-ready/src/index.ts:21-36 | Spelling the tokens back out gives the arguments again, so every argument is consumed exactly once. |
| Cli.TokenizeCanonical | traycer-assignment-ready/src/index.ts:21-36 | Every token list the scanner produces is canonical. Only a trailing option lacks its value. |
| Cli.TokenizeUntokenize | traycer-assignment-ready/src/index.ts:21-36 | Tokenizing the spelling of a canonical token list gives it back. |
| Cli.TokenizeSpell | traycer-assignment-ready/src/index.ts:21-36 | A well-formed token followed by more arguments tokenizes as that token followed by the tokens of the rest. |
| Cli.AfterValue | traycer-assignment-ready/src/index.ts:24-29 | Consuming an option and its value always shortens the remaining arguments, so the scan terminates. |
| Cli.ValuedTokenFirst | traycer-assignment-ready/src/index.ts:24-29 | An option that takes a value is tokenized together with the following argument, and the scan resumes two places on. |
| Cli.ScanYes | traycer-assignment-ready/src/index.ts:23 | At `--yes`/`-y` the run continues one place on with `yes` set. |
| Cli.ScanOut | traycer-assignment-ready/src/index.ts:24 | At `--out`/`-o` the run continues two places on, with the next argument as the directory, or the old one when there is none. |
| Cli.ScanGoals | traycer-assignment-ready/src/index.ts:25-27 | At `--goals` the run continues with the goals replaced by the pieces of the value, or of `""` when there is none. |
| Cli.ScanGoalsFile | traycer-assignment-ready/src/index.ts:28-31 | At `--goals-file` the run fails with a missing or unreadable path, and otherwise continues with the goals replaced by the file's goal lines. |
| Cli.ScanPositional | traycer-assignment-ready/src/index.ts:32-35 | Any argument that is not one of the options is appended, untrimmed, to the goals. |
| Cli.ScanPlain | traycer-assignment-ready/src/index.ts:23-35 | A one-place step of the scan is one step of the run. |
| Cli.ScanValued | traycer-assignment-ready/src/index.ts:24-31 | A successful two-place step of the scan is one step of the run. |
| Cli.ScanValuedFails | traycer-assignment-ready/src/index.ts:28-30 | A failing two-place step ends the run with that step's error. |
| Cli.RunFails | traycer-assignment-ready/src/index.ts:28-30 | The run fails iff some token is a `--goals-file` without a readable path, and then it fails with the error of the first such token. |
| Cli.RunYes | traycer-assignment-ready/src/index.ts:18-23 | After a successful run, `yes` is set iff it was set before or some token is `--yes`/`-y`. |
| Cli.RunOutDir | traycer-assignment-ready/src/index.ts:19-24 | After a successful run, the directory is the value of the last `--out`/`-o` that has one, or the starting directory when there is none. |
| Cli.ReplacedShift | traycer-assignment-ready/src/index.ts:25-31 | A replacement of the goals at position k of the tail is one at position k + 1 of the whole list. |
| Cli.NoReplaceShift | traycer-assignment-ready/src/index.ts:25-31 | A tail without replacements leaves the whole list without any from position 1 on. |
| Cli.RunGoals | traycer-assignment-ready/src/index.ts:17-35 | After a successful run, the goals are either the value of the last replacing option followed by the positionals after it, or the starting goals followed by all positionals. |
| Cli.GoalsNeverEmpty | traycer-assignment-ready/src/index.ts:38-40 | A successful parse always has at least one goal. |
| Cli.ParseFails | traycer-assignment-ready/src/index.ts:28-30 | Parsing fails iff some token of the user arguments is a `--goals-file` without a readable path. |
| Cli.ParseSwitches | traycer-assignment-ready/src/index.ts:16-24 | After a successful parse, `yes` holds iff some token is `--yes`/`-y`. The directory is the last `--out`/`-o` value, defaulting to "plans". The first two argv entries play no part. |
| Cli.ParseGoals | traycer-assignment-ready/src/index.ts:17-40 | After a successful parse, the goals are those the tokens leave behind, or the single default goal when they leave none. |
| Cli.TrimAll | traycer-assignment-ready/src/index.ts:27-31 | Trimming the pieces keeps their number. |
| Cli.SplitGoals | traycer-assignment-ready/src/index.ts:27 | The `--goals` value split at `\|`, trimmed, with empty pieces dropped. It is a definition without a contract; `SplitGoalShape`, `SplitGoalsKeep` and `SplitGoalsJoin` state its properties. |
| Cli.GoalLines | traycer-assignment-ready/src/index.ts:31 | The goals file split into lines, trimmed, with blank and `#` lines dropped. It is a definition without a contract; `GoalLineShape`, `GoalLinesKeep` and `GoalLinesJoin` state its properties. |
| Cli.SplitGoalShape | traycer-assignment-ready/src/index.ts:27 | Every goal taken from a `--goals` value is non-empty, trimmed, and free of `\|`. |
| Cli.SplitGoalsKeep | traycer-assignment-ready/src/index.ts:27 | Every piece of the value that is not blank once trimmed is kept, trimmed. |
| Cli.SplitGoalsJoin | traycer-assignment-ready/src/index.ts:27 | Goals that are non-empty, trimmed and free of `\|`, joined with `\|`, come back unchanged from `--goals`. |
| Cli.GoalLineShape | traycer-assignment-ready/src/index.ts:31 | Every goal taken from a goals file is non-empty, trimmed, does not start with `#` and holds no line feed. |
| Cli.GoalLinesKeep | traycer-assignment-ready/src/index.ts:31 | Every line that is neither blank nor a `#` comment once trimmed is kept as a goal, trimmed. |
| Cli.GoalLinesJoin | traycer-assignment-ready/src/index.ts:31 | Such goal lines, joined with line feeds, come back unchanged from a goals file. |
| Cli.GoalLinesBySplit | traycer-assignment-ready/src/index.ts:31 | Splitting on `\r?\n` and trimming gives the same goals as splitting on `\n` alone. |
| Cli.TrimAllLines | traycer-assignment-ready/src/index.ts:31 | Once trimmed, the lines of `split(/\r?\n/)` and the pieces of `split("\n")` agree. |
| Slugs.Slug | traycer-assignment-ready/src/index.ts:44-46 | The slug has 1 to 60 characters, all from `a-z`, `0-9` and `-`. It has no `--` and does not start with `-`. |
| Slugs.Collapse | traycer-assignment-ready/src/index.ts:45 | Replacing runs of characters outside `[a-z0-9]` by one hyphen never lengthens the text, leaves only slug characters, and leaves no `--`. The result is empty iff the input is, and starts with `-` iff the input does not start with a slug character. |
| Slugs.OtherRun | traycer-assignment-ready/src/index.ts:45 | The non-slug run at the front is maximal. |
| Slugs.StripEnds | traycer-assignment-ready/src/index.ts:45 | `replace(/(^-\|-$)/g, "")` removes at most one hyphen at each end and keeps the slug shape. On text without `--` the result neither starts nor ends with `-`. |
| Slugs.TakeShape | traycer-assignment-ready/src/index.ts:45 | Truncation keeps the slug shape, the absence of `--`, and the absence of a leading hyphen. |
| Slugs.CollapseKeepsAlnum | traycer-assignment-ready/src/index.ts:45 | Collapsing keeps every letter and digit, in order. |
| Slugs.NoAlnum | traycer-assignment-ready/src/index.ts:45 | Text without slug characters has no letters or digits to keep. |
| Slugs.StripKeepsAlnum | traycer-assignment-ready/src/index.ts:45 | Stripping the end hyphens keeps every letter and digit. |
| Slugs.TakeAlnum | traycer-assignment-ready/src/index.ts:45 | The letters and digits after truncation are a prefix of those before. |
| Slugs.HasLetterOrDigitAlnum | traycer-assignment-ready/src/index.ts:45 | The input has an ASCII letter or digit iff its lower-cased form keeps some slug character. |
| Slugs.StrippedAlnum | traycer-assignment-ready/src/index.ts:45 | Before truncation, the slug keeps all letters and digits of the lowered input. It is empty iff there are none, and otherwise starts with one. |
| Slugs.SlugFallback | traycer-assignment-ready/src/index.ts:45 | The slug is "plan" when the input has no ASCII letter or digit. |
| Slugs.SlugKeepsAlnum | traycer-assignment-ready/src/index.ts:45 | Otherwise the slug keeps a non-empty prefix of the input's letters and digits, in order. |
| Slugs.SlugKeepsAllAlnum | traycer-assignment-ready/src/index.ts:45 | An input of at most 60 characters keeps all of its letters and digits. |
| Slugs.SlugTrailingHyphen | traycer-assignment-ready/src/index.ts:45 | The slug ends in `-` only when it is exactly 60 characters long, cut just after a hyphen. |
| Slugs.SlugCanEndWithHyphen | traycer-assignment-ready/src/index.ts:45 | Fifty-nine `a`s, a space and `b` give a slug ending in `-`, and slugging that slug changes it. |
| Slugs.SlugIntended | traycer-assignment-ready/src/index.ts:45 | With the end hyphens removed after truncation as well, the slug has 1 to 60 slug characters, no `--`, and no hyphen at either end. |
| Slugs.SlugIntendedAgrees | traycer-assignment-ready/src/index.ts:45 | The corrected slug equals the original one, except that it drops the one trailing hyphen the original can have. |
| Slugs.SlugIntendedFixed | traycer-assignment-ready/src/index.ts:45 | Every well-formed slug is its own corrected slug. |
| Slugs.SlugIntendedIdempotent | traycer-assignment-ready/src/index.ts:45 | Slugging a corrected slug again changes nothing. |
| Exporter.ExportPlan | traycer-assignment-ready/src/exporter.ts:5-25 | The payload goes to `opts.file`, and the returned path is `opts.file`. |
| Exporter.Payload | traycer-assignment-ready/src/exporter.ts:6-20 | The payload object, as a definition without a contract: kind `plan.v1`, the goal, the shaped steps, the first 50 files as repository hints, and the notes. `PayloadHeader`, `RepoHintsPrefix` and `PayloadStepsMatch` state its properties. |
| Exporter.ToPayloadStep | traycer-assignment-ready/src/exporter.ts:9-17 | One step in payload form, as a definition without a contract: the same identifier, title, rationale, targets, instructions and acceptance, with `dependsOn` defaulting to empty. `PayloadStepRoundTrip` proves that it loses only the risk, the effort and the difference between an absent and an empty `dependsOn`. |
| Exporter.PayloadSteps | traycer-assignment-ready/src/exporter.ts:9-17 | There is one payload step per plan step. |
| Exporter.PayloadHeader | traycer-assignment-ready/src/exporter.ts:7-19 | The kind is always "plan.v1". The goal and notes are the plan's. |
| Exporter.PayloadStepsMatch | traycer-assignment-ready/src/exporter.ts:9-16 | Payload steps follow the plan's steps index by index. Each has the same id, title and rationale, `targets` = `targetFiles`, `instructions` = `instructions` and `acceptance` = `acceptanceCriteria`. `dependsOn` is the step's when present, else empty. |
| Exporter.RepoHintsPrefix | traycer-assignment-ready/src/exporter.ts:18 | The repository hints are the prefix of the analysed files of length min(50, number of files). |
| Exporter.PayloadStepRoundTrip | traycer-assignment-ready/src/exporter.ts:9-17 | Turning a payload step back into a plan step, given the risk and effort, gives the original step, except that absent dependencies become the empty list. The two are identical when dependencies are present. |
| Exporter.PayloadIgnoresRiskAndEffort | traycer-assignment-ready/src/exporter.ts:9-17 | Risk and effort do not reach the payload. |
| Exporter.PayloadStepsAppend | traycer-assignment-ready/src/exporter.ts:9 | Shaping the steps commutes with concatenating step lists. |
| Exporter.BuiltPlanPayloadHasNoDependencies | traycer-assignment-ready/src/exporter.ts:16 | For a plan `buildPlan` made, every payload step lists no dependencies. |
| Refiner.PlanObject.constructor | traycer-assignment-ready/src/types.ts:15-20 | The object holds exactly the given plan. |
| Refiner.RefinePlan | traycer-assignment-ready/src/refiner.ts:15-16 | `steps` becomes the steps whose id is not ticked. Goal, repository summary and notes are unchanged, and the same object is returned. |
| Refiner.KeptSteps | traycer-assignment-ready/src/refiner.ts:15 | The steps whose identifier is not ticked, in order. It is a definition without a contract; `KeptExactly`, `KeepAllWhenNothingTicked`, `RefineTwice` and the count lemmas state its properties. |
| Refiner.KeptExactly | traycer-assignment-ready/src/refiner.ts:15 | A step survives iff it was in the plan and its id was not ticked. The survivors keep their relative order, and every surviving step keeps all its occurrences. |
| Refiner.KeepAllWhenNothingTicked | traycer-assignment-ready/src/refiner.ts:15 | Ticking nothing keeps every step. |
| Refiner.RefineTwice | traycer-assignment-ready/src/refiner.ts:15 | Removing one list of ids and then another is removing both at once. |
| Refiner.KeptCount | traycer-assignment-ready/src/refiner.ts:15 | The plan shrinks by the number of steps whose id was ticked. |
| Refiner.RemovedCountDistinct | traycer-assignment-ready/src/refiner.ts:15 | With distinct step ids, that number is the number of ticked ids that name a step. |
| Refiner.KeptCountDistinct | traycer-assignment-ready/src/refiner.ts:15 | With distinct step ids, and distinct ticked ids that each name a step, the plan shrinks by exactly the number of ticked ids. |
| Refiner.SharedIdRemovesMore | traycer-assignment-ready/src/refiner.ts:15 | Random ids need not be distinct. One ticked id shared by two steps removes both. |
| Refiner.RemovalCanLeaveDanglingDependency | traycer-assignment-ready/src/refiner.ts:15 | Dependencies are not adjusted, so a kept step can name a removed one. |
| Text.Trim | traycer-assignment-ready/src/index.ts:27-31 | `trim` never lengthens a text. The result is empty iff the text is all white space, and otherwise starts and ends with a non-space character. |
| Text.TrimInfix | traycer-assignment-ready/src/index.ts:27-31 | The text is the leading white space, the trimmed text, and white space after it. |
| Text.TrimIdempotent | traycer-assignment-ready/src/index.ts:27-31 | Trimming twice trims nothing more. |
| Text.TrimChars | traycer-assignment-ready/src/index.ts:27-31 | Trimming only removes characters. |
| Text.TrimDropLastSpace | traycer-assignment-ready/src/index.ts:31 | Dropping a trailing carriage return or other space before trimming changes nothing. |
| Text.Split | traycer-assignment-ready/src/index.ts:27 | `s.split(sep)` for a one-character separator: the pieces between successive separators, at least one. `SplitPieces`, `JoinSplit` and `SplitJoin` state its properties. |
| Text.Join | traycer-assignment-ready/src/planner.ts:28 | `parts.join(sep)`: the parts with the separator between neighbours, and the empty text for no parts. It is a definition without a contract; `JoinSplit` and `SplitJoin` prove that it inverts `Split`. |
| Text.SplitPieces | traycer-assignment-ready/src/index.ts:27 | No piece of `split` holds the separator. |
| Text.JoinSplit | traycer-assignment-ready/src/index.ts:27 | Joining the pieces with the separator gives the text back. |
| Text.SplitJoin | traycer-assignment-ready/src/index.ts:27 | Splitting a join of separator-free pieces gives the pieces back. |
| Text.SplitLines | traycer-assignment-ready/src/index.ts:31 | `split(/\r?\n/)` has as many lines as `split("\n")` has pieces. |
| Text.SplitLinesTrimmed | traycer-assignment-ready/src/index.ts:31 | Once trimmed, each line of `split(/\r?\n/)` is the trimmed piece of `split("\n")`. |
| Text.Lower | traycer-assignment-ready/src/planner.ts:7 | `toLowerCase` for ASCII letters: each upper-case ASCII letter is replaced by its lower-case form and every other character is kept. This is also the first step of `slug` at index.ts:45. It is a definition without a contract; `LowerIdempotent` and `FiresLowered` state its properties. |
| Text.LowerIdempotent | traycer-assignment-ready/src/planner.ts:7 | Lower-casing twice is lower-casing once. |
| Seqs.Filter | traycer-assignment-ready/src/refiner.ts:15 | `filter` never lengthens the sequence. |
| Seqs.FilterMembers | traycer-assignment-ready/src/refiner.ts:15 | An element is in the result of `filter` iff it is in the input and accepted. |
| Seqs.FilterIsSubseq | traycer-assignment-ready/src/planner.ts:32 | `filter` keeps the relative order. |
| Seqs.FilterMultiset | traycer-assignment-ready/src/planner.ts:32 | `filter` keeps every occurrence of an accepted element and none of a rejected one. |
| Seqs.Take | traycer-assignment-ready/src/planner.ts:40 | `slice(0, n)` is the prefix of length min(n, length). |
| Seqs.Dedup | traycer-assignment-ready/src/planner.ts:69 | `[...new Set(s)]` has no duplicates and exactly the elements of `s`. |
| Seqs.DedupFirstOccurrenceOrder | traycer-assignment-ready/src/planner.ts:69 | The deduplicated elements come in the order of their first occurrence. |
| Seqs.DedupOfNoDups | traycer-assignment-ready/src/planner.ts:152 | A list without duplicates is its own dedup. |
| Seqs.SubseqNoDups | traycer-assignment-ready/src/planner.ts:40 | Keeping some elements of a list without duplicates, in order, cannot create one. |

## Left out

- `repoAnalyzer.ts`: directory traversal and the TypeScript parser are file-system I/O and a foreign library. The planner takes the list of analysed files as given.
- `main` of `index.ts`: console output, `analyzeRepo`, `path.join`, the manifest write, and `process.exit`. These are I/O and sequencing of the modelled calls.
- The file read of `--goals-file`: modelled as a lookup in a map from readable paths to their text. A missing path (`readFileSync(undefined)` throws) becomes `MissingGoalsFilePath`. An unreadable path becomes `UnreadableGoalsFile`. The exception itself is not modelled.
- `inquirer.prompt` and the console listing in `refiner.ts`: interactive I/O. The ticked ids are a parameter.
- `fs.mkdirSync`, `fs.writeFileSync` and `JSON.stringify` in `exporter.ts`: file I/O and text formatting. The payload is a datatype, and `Exported.file` says where it goes.
- `id()` of `planner.ts`: randomness. The ids are a parameter, and nothing assumes they are distinct unless a lemma requires it.
- Unicode case mapping: `toLowerCase` is modelled for ASCII letters only. A non-ASCII letter whose lower-case form is an ASCII letter (the Kelvin sign, for one) is treated differently by the original.
- The general regular-expression engine: each fixed pattern is a predicate written for that pattern, and the goal pattern is substring search over the escaped keywords.
- The step prose: the rationale, instructions and acceptance texts are constants, and no property is stated about them beyond their use.
- `exportPlan` and `buildPlan` are `async`. The model is the value they resolve to.

## Findings

| source | as written | input that shows it | evidently intended | confidence | as-written member | corrected member |
|---|---|---|---|---|---|---|
| traycer-assignment-ready/src/index.ts:45 | The end hyphens are removed before `slice(0, 60)`, so the cut can leave a trailing hyphen. | Fifty-nine `a` characters, a space and `b` give the slug of fifty-nine `a`s followed by `-`. Slugging that again drops the hyphen. | The slug has no hyphen at either end, and slugging a slug changes nothing. | not executed | Slugs.SlugCanEndWithHyphen | Slugs.SlugIntended |
