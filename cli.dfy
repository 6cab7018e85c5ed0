/** `parseCLI` of `index.ts`, which scans the command-line arguments into the goals,
    the `--yes` switch and the output directory.

    The scan is specified in two layers. `Tokenize` cuts the arguments into the
    options and positional goals the loop sees, each option with the value it
    consumes; `Run` folds the effect of those tokens over the parser state. The
    method `ParseCli` is the loop itself, proved equal to that specification. The
    file system `--goals-file` reads from is a map from the paths that can be read
    to their text. */
module Cli {
  import opened Wrappers
  import opened Seqs
  import opened Text

  // ---------------------------------------------------------------------------
  // Tokens: the arguments as the loop consumes them.

  /** One step of the scan: an option with the argument it consumed as its value
      (`None` when the option was the last argument), or a positional goal. */
  datatype Arg =
    | YesFlag(flag: string)
    | OutFlag(flag: string, dir: Option<string>)
    | GoalsFlag(list: Option<string>)
    | GoalsFileFlag(path: Option<string>)
    | Positional(text: string)

  predicate IsYesFlag(a: string) {
    a == "--yes" || a == "-y"
  }

  predicate IsOutFlag(a: string) {
    a == "--out" || a == "-o"
  }

  const GoalsOption: string := "--goals"
  const GoalsFileOption: string := "--goals-file"

  /** An argument the loop treats as an option rather than as a goal. */
  predicate IsOption(a: string) {
    IsYesFlag(a) || IsOutFlag(a) || a == GoalsOption || a == GoalsFileOption
  }

  /** `args[++i]` seen from the option at `args[0]`. */
  function NextArg(args: seq<string>): Option<string> {
    if |args| >= 2 then Some(args[1]) else None
  }

  /** What remains once the option at `args[0]` and its value are consumed. */
  function AfterValue(args: seq<string>): (rest: seq<string>)
    requires args != []
    ensures |rest| < |args|
  {
    if |args| >= 2 then args[2..] else []
  }

  /** The arguments cut into the steps of the scan, left to right; an option that
      takes a value swallows the argument after it, whatever that argument is. */
  function Tokenize(args: seq<string>): seq<Arg>
    decreases |args|
  {
    if args == [] then []
    else
      var a := args[0];
      if IsYesFlag(a) then [YesFlag(a)] + Tokenize(args[1..])
      else if IsOutFlag(a) then [OutFlag(a, NextArg(args))] + Tokenize(AfterValue(args))
      else if a == GoalsOption then [GoalsFlag(NextArg(args))] + Tokenize(AfterValue(args))
      else if a == GoalsFileOption then [GoalsFileFlag(NextArg(args))] + Tokenize(AfterValue(args))
      else [Positional(a)] + Tokenize(args[1..])
  }

  function OptionalArg(v: Option<string>): seq<string> {
    match v
    case None => []
    case Some(x) => [x]
  }

  /** The arguments a token was cut from. */
  function Spell(t: Arg): seq<string> {
    match t
    case YesFlag(f) => [f]
    case OutFlag(f, v) => [f] + OptionalArg(v)
    case GoalsFlag(v) => [GoalsOption] + OptionalArg(v)
    case GoalsFileFlag(v) => [GoalsFileOption] + OptionalArg(v)
    case Positional(a) => [a]
  }

  function Untokenize(toks: seq<Arg>): seq<string> {
    if toks == [] then [] else Spell(toks[0]) + Untokenize(toks[1..])
  }

  /** A token holds a value it could not consume. */
  predicate LacksValue(t: Arg) {
    (t.OutFlag? && t.dir.None?) || (t.GoalsFlag? && t.list.None?) || (t.GoalsFileFlag? && t.path.None?)
  }

  /** The shape `Tokenize` produces: options spelled as options, positional goals
      that are not options, and a missing value only on the last token. */
  predicate Canonical(toks: seq<Arg>) {
    forall k :: 0 <= k < |toks| ==>
      && (toks[k].YesFlag? ==> IsYesFlag(toks[k].flag))
      && (toks[k].OutFlag? ==> IsOutFlag(toks[k].flag))
      && (toks[k].Positional? ==> !IsOption(toks[k].text))
      && (LacksValue(toks[k]) ==> k == |toks| - 1)
  }

  /** Tokenizing loses nothing: spelling the tokens out gives back the arguments. */
  lemma {:induction false} UntokenizeTokenize(args: seq<string>)
    ensures Untokenize(Tokenize(args)) == args
    decreases |args|
  {
    if args != [] {
      var a := args[0];
      var toks := Tokenize(args);
      if IsYesFlag(a) || !IsOption(a) {
        UntokenizeTokenize(args[1..]);
        assert toks[1..] == Tokenize(args[1..]);
        assert args == [a] + args[1..];
      } else {
        var rest := AfterValue(args);
        UntokenizeTokenize(rest);
        assert toks[1..] == Tokenize(rest);
        SpellValued(args);
      }
    }
  }

  /** An option that takes a value is spelled as itself and the argument it
      swallowed, if any. */
  lemma SpellValued(args: seq<string>)
    requires args != [] && IsOption(args[0]) && !IsYesFlag(args[0])
    ensures Spell(Tokenize(args)[0]) + AfterValue(args) == args
  {
    if |args| >= 2 {
      assert args == [args[0], args[1]] + args[2..];
    }
  }

  lemma {:induction false} TokenizeCanonical(args: seq<string>)
    ensures Canonical(Tokenize(args))
    decreases |args|
  {
    if args != [] {
      var a := args[0];
      var toks := Tokenize(args);
      var rest := if IsYesFlag(a) || !IsOption(a) then args[1..] else AfterValue(args);
      TokenizeCanonical(rest);
      assert toks[1..] == Tokenize(rest);
      forall k | 1 <= k < |toks|
        ensures toks[k] == Tokenize(rest)[k - 1]
      {
      }
      assert LacksValue(toks[0]) ==> rest == [];
    }
  }

  /** Tokenizing undoes spelling out a canonical token sequence, so the two are
      inverse to each other. */
  lemma {:induction false} TokenizeUntokenize(toks: seq<Arg>)
    requires Canonical(toks)
    ensures Tokenize(Untokenize(toks)) == toks
    decreases |toks|
  {
    if toks != [] {
      var rest := toks[1..];
      assert Canonical(rest) by {
        forall k | 0 <= k < |rest| ensures rest[k] == toks[k + 1] { }
      }
      TokenizeUntokenize(rest);
      assert LacksValue(toks[0]) ==> rest == [];
      TokenizeSpell(toks[0], Untokenize(rest));
    }
  }

  /** One canonical token spelled out in front of further arguments is cut off again. */
  lemma TokenizeSpell(t: Arg, more: seq<string>)
    requires t.YesFlag? ==> IsYesFlag(t.flag)
    requires t.OutFlag? ==> IsOutFlag(t.flag)
    requires t.Positional? ==> !IsOption(t.text)
    requires LacksValue(t) ==> more == []
    ensures Tokenize(Spell(t) + more) == [t] + Tokenize(more)
  {
    match t
    case YesFlag(f) => SingleCut(f, more);
    case Positional(a) => SingleCut(a, more);
    case OutFlag(f, v) => ValuedCut(f, v, more);
    case GoalsFlag(v) => ValuedCut(GoalsOption, v, more);
    case GoalsFileFlag(v) => ValuedCut(GoalsFileOption, v, more);
  }

  lemma SingleCut(a: string, more: seq<string>)
    ensures var args := [a] + more; args != [] && args[0] == a && args[1..] == more
  {
    var args := [a] + more;
    assert args[1..] == more;
  }

  lemma ValuedCut(f: string, v: Option<string>, more: seq<string>)
    requires v.None? ==> more == []
    ensures var args := [f] + OptionalArg(v) + more;
      args != [] && args[0] == f && NextArg(args) == v && AfterValue(args) == more
  {
    var args := [f] + OptionalArg(v) + more;
    if v.Some? {
      assert args == [f, v.value] + more;
      assert args[2..] == more;
    }
  }

  // ---------------------------------------------------------------------------
  // The parser state and the effect of each token.

  /** `{ goals, yes, outDir }` */
  datatype Options = Options(goals: seq<string>, yes: bool, outDir: string)

  /** Why `parseCLI` throws: `fs.readFileSync` given no path, or a path it cannot read. */
  datatype CliError = MissingGoalsFilePath | UnreadableGoalsFile(path: string)

  const DefaultOutDir: string := "plans"
  const DefaultGoal: string := "Refactor button props to shallow-merge deprecated & new slotProps"

  const Initial: Options := Options([], false, DefaultOutDir)

  /** The pieces a trimmed text is cut into, each trimmed. */
  function TrimAll(pieces: seq<string>): (r: seq<string>)
    ensures |r| == |pieces|
  {
    seq(|pieces|, i requires 0 <= i < |pieces| => Trim(pieces[i]))
  }

  /** `Boolean(g)` for a string: it is not empty. */
  predicate NonEmpty(g: string) {
    g != []
  }

  /** `l && !l.startsWith("#")`: a line that is neither blank nor a comment. */
  predicate IsGoalLine(l: string) {
    l != [] && l[0] != '#'
  }

  /** `val.split("|").map(s => s.trim()).filter(Boolean)` */
  function SplitGoals(val: string): seq<string> {
    Filter(TrimAll(Split(val, '|')), NonEmpty)
  }

  /** `text.split(/\r?\n/).map(l => l.trim()).filter(l => l && !l.startsWith("#"))` */
  function GoalLines(text: string): seq<string> {
    Filter(TrimAll(SplitLines(text)), IsGoalLine)
  }

  /** The effect of one token on the state, or the error it raises. */
  function Step(st: Options, t: Arg, files: map<string, string>): Result<Options, CliError> {
    match t
    case YesFlag(_) => Ok(st.(yes := true))
    case OutFlag(_, v) => Ok(st.(outDir := v.GetOr(st.outDir)))
    case GoalsFlag(v) => Ok(st.(goals := SplitGoals(v.GetOr(""))))
    case GoalsFileFlag(None) => Err(MissingGoalsFilePath)
    case GoalsFileFlag(Some(p)) =>
      if p in files then Ok(st.(goals := GoalLines(files[p]))) else Err(UnreadableGoalsFile(p))
    case Positional(a) => Ok(st.(goals := st.goals + [a]))
  }

  /** The tokens applied in order, stopping at the first error. */
  function Run(st: Options, toks: seq<Arg>, files: map<string, string>): Result<Options, CliError>
    decreases |toks|
  {
    if toks == [] then Ok(st)
    else
      match Step(st, toks[0], files)
      case Err(e) => Err(e)
      case Ok(st') => Run(st', toks[1..], files)
  }

  /** `argv.slice(2)`: the arguments after the runtime and the script. */
  function UserArgs(argv: seq<string>): seq<string> {
    if |argv| >= 2 then argv[2..] else []
  }

  /** The default goal stands in when no goal was collected. */
  function Finish(st: Options): Options {
    if st.goals == [] then st.(goals := [DefaultGoal]) else st
  }

  /** What `parseCLI(argv)` returns, or the error it throws. */
  function ParseSpec(argv: seq<string>, files: map<string, string>): Result<Options, CliError> {
    match Run(Initial, Tokenize(UserArgs(argv)), files)
    case Err(e) => Err(e)
    case Ok(st) => Ok(Finish(st))
  }

  /** The arguments from index `i` on; the loop's index may overshoot by one when
      the last argument is an option that wanted a value. */
  function From(args: seq<string>, i: nat): seq<string> {
    if i <= |args| then args[i..] else []
  }

  /** The token of an argument that takes no value. */
  function PlainToken(a: string): Arg {
    if IsYesFlag(a) then YesFlag(a) else Positional(a)
  }

  /** The token of the option at `args[i]`, holding the argument after it, if any. */
  function ValuedToken(args: seq<string>, i: nat): Arg
    requires i < |args|
  {
    var v := if i + 1 < |args| then Some(args[i + 1]) else None;
    var a := args[i];
    if IsOutFlag(a) then OutFlag(a, v) else if a == GoalsOption then GoalsFlag(v) else GoalsFileFlag(v)
  }

  /** Scanning on from an argument that takes no value applies its token, then
      goes on with the argument after it. */
  lemma ScanPlain(args: seq<string>, i: nat, st: Options, st': Options, files: map<string, string>)
    requires i < |args| && !(IsOption(args[i]) && !IsYesFlag(args[i]))
    requires Step(st, PlainToken(args[i]), files) == Ok(st')
    ensures Run(st, Tokenize(From(args, i)), files) == Run(st', Tokenize(From(args, i + 1)), files)
  {
    var rest := From(args, i);
    assert rest[0] == args[i] && rest[1..] == From(args, i + 1);
  }

  /** Scanning on from an option that takes a value applies its token, then goes
      on after the value it consumed ... */
  lemma ScanValued(args: seq<string>, i: nat, st: Options, st': Options, files: map<string, string>)
    requires i < |args| && IsOption(args[i]) && !IsYesFlag(args[i])
    requires Step(st, ValuedToken(args, i), files) == Ok(st')
    ensures Run(st, Tokenize(From(args, i)), files) == Run(st', Tokenize(From(args, i + 2)), files)
  {
    ValuedTokenFirst(args, i);
  }

  /** ... or stops with the error the token raises. */
  lemma ScanValuedFails(args: seq<string>, i: nat, st: Options, files: map<string, string>)
    requires i < |args| && IsOption(args[i]) && !IsYesFlag(args[i])
    requires Step(st, ValuedToken(args, i), files).Err?
    ensures Run(st, Tokenize(From(args, i)), files) == Step(st, ValuedToken(args, i), files)
  {
    ValuedTokenFirst(args, i);
  }

  // The effect of each branch of the loop body on the rest of the scan.

  lemma ScanYes(args: seq<string>, i: nat, st: Options, files: map<string, string>)
    requires i < |args| && IsYesFlag(args[i])
    ensures Run(st, Tokenize(From(args, i)), files) == Run(st.(yes := true), Tokenize(From(args, i + 1)), files)
  {
    ScanPlain(args, i, st, st.(yes := true), files);
  }

  lemma ScanPositional(args: seq<string>, i: nat, st: Options, files: map<string, string>)
    requires i < |args| && !IsOption(args[i])
    ensures Run(st, Tokenize(From(args, i)), files)
         == Run(st.(goals := st.goals + [args[i]]), Tokenize(From(args, i + 1)), files)
  {
    ScanPlain(args, i, st, st.(goals := st.goals + [args[i]]), files);
  }

  lemma ScanOut(args: seq<string>, i: nat, st: Options, files: map<string, string>)
    requires i < |args| && IsOutFlag(args[i])
    ensures var dir := if i + 1 < |args| then args[i + 1] else st.outDir;
      Run(st, Tokenize(From(args, i)), files) == Run(st.(outDir := dir), Tokenize(From(args, i + 2)), files)
  {
    var dir := if i + 1 < |args| then args[i + 1] else st.outDir;
    ScanValued(args, i, st, st.(outDir := dir), files);
  }

  lemma ScanGoals(args: seq<string>, i: nat, st: Options, files: map<string, string>)
    requires i < |args| && args[i] == GoalsOption
    ensures var v := if i + 1 < |args| then Some(args[i + 1]) else None;
      Run(st, Tokenize(From(args, i)), files)
        == Run(st.(goals := SplitGoals(v.GetOr(""))), Tokenize(From(args, i + 2)), files)
  {
    var v := if i + 1 < |args| then Some(args[i + 1]) else None;
    assert ValuedToken(args, i) == GoalsFlag(v) by {
      assert !IsOutFlag(args[i]);
    }
    ScanValued(args, i, st, st.(goals := SplitGoals(v.GetOr(""))), files);
  }

  lemma ScanGoalsFile(args: seq<string>, i: nat, st: Options, files: map<string, string>)
    requires i < |args| && args[i] == GoalsFileOption
    ensures i + 1 >= |args| ==> Run(st, Tokenize(From(args, i)), files) == Err(MissingGoalsFilePath)
    ensures i + 1 < |args| && args[i + 1] !in files ==>
      Run(st, Tokenize(From(args, i)), files) == Err(UnreadableGoalsFile(args[i + 1]))
    ensures i + 1 < |args| && args[i + 1] in files ==>
      Run(st, Tokenize(From(args, i)), files)
        == Run(st.(goals := GoalLines(files[args[i + 1]])), Tokenize(From(args, i + 2)), files)
  {
    assert !IsOutFlag(args[i]) && args[i] != GoalsOption;
    if i + 1 < |args| && args[i + 1] in files {
      ScanValued(args, i, st, st.(goals := GoalLines(files[args[i + 1]])), files);
    } else {
      ScanValuedFails(args, i, st, files);
    }
  }

  lemma ValuedTokenFirst(args: seq<string>, i: nat)
    requires i < |args| && IsOption(args[i]) && !IsYesFlag(args[i])
    ensures Tokenize(From(args, i)) == [ValuedToken(args, i)] + Tokenize(From(args, i + 2))
  {
    var rest := From(args, i);
    assert rest[0] == args[i];
    assert AfterValue(rest) == From(args, i + 2);
    assert NextArg(rest) == if i + 1 < |args| then Some(args[i + 1]) else None;
  }

  /** The scan from index `i` on with state `st`, argument by argument. */
  function Scan(args: seq<string>, i: nat, st: Options, files: map<string, string>): Result<Options, CliError>
    decreases |args| + 1 - i, 1
  {
    if i >= |args| then Ok(st) else Advance(args, i, st, files)
  }

  /** The scan from the argument at `i`: the turn of the loop that handles it, then
      the scan from the index that turn leaves behind. */
  function Advance(args: seq<string>, i: nat, st: Options, files: map<string, string>): Result<Options, CliError>
    requires i < |args|
    decreases |args| + 1 - i, 0
  {
    var a := args[i];
    if IsYesFlag(a) then Scan(args, i + 1, st.(yes := true), files)
    else if IsOutFlag(a) then
      Scan(args, i + 2, st.(outDir := if i + 1 < |args| then args[i + 1] else st.outDir), files)
    else if a == GoalsOption then
      Scan(args, i + 2, st.(goals := SplitGoals(if i + 1 < |args| then args[i + 1] else "")), files)
    else if a == GoalsFileOption then
      if i + 1 >= |args| then Err(MissingGoalsFilePath)
      else if args[i + 1] !in files then Err(UnreadableGoalsFile(args[i + 1]))
      else Scan(args, i + 2, st.(goals := GoalLines(files[args[i + 1]])), files)
    else Scan(args, i + 1, st.(goals := st.goals + [a]), files)
  }

  /** One turn of the loop, branch by branch: the scan from `i` on continues from
      the index and state that branch leaves behind, or fails. */
  lemma ScanNext(args: seq<string>, i: nat, st: Options, files: map<string, string>)
    requires i < |args|
    ensures var a := args[i];
      var v := if i + 1 < |args| then Some(args[i + 1]) else None;
      && (IsYesFlag(a) ==> Scan(args, i, st, files) == Scan(args, i + 1, st.(yes := true), files))
      && (IsOutFlag(a) ==> Scan(args, i, st, files) == Scan(args, i + 2, st.(outDir := v.GetOr(st.outDir)), files))
      && (a == GoalsOption ==> Scan(args, i, st, files) == Scan(args, i + 2, st.(goals := SplitGoals(v.GetOr(""))), files))
      && (a == GoalsFileOption && v.None? ==> Scan(args, i, st, files) == Err(MissingGoalsFilePath))
      && (a == GoalsFileOption && v.Some? && v.value !in files ==>
            Scan(args, i, st, files) == Err(UnreadableGoalsFile(v.value)))
      && (a == GoalsFileOption && v.Some? && v.value in files ==>
            Scan(args, i, st, files) == Scan(args, i + 2, st.(goals := GoalLines(files[v.value])), files))
      && (!IsOption(a) ==> Scan(args, i, st, files) == Scan(args, i + 1, st.(goals := st.goals + [a]), files))
  {
    assert Scan(args, i, st, files) == Advance(args, i, st, files);
  }

  /** Scanning argument by argument is folding the tokens. */
  lemma {:induction false} ScanIsRun(args: seq<string>, i: nat, st: Options, files: map<string, string>)
    ensures Scan(args, i, st, files) == Run(st, Tokenize(From(args, i)), files)
    decreases |args| - i
  {
    if i < |args| {
      ScanNext(args, i, st, files);
      var a := args[i];
      if IsYesFlag(a) {
        ScanYes(args, i, st, files);
        ScanIsRun(args, i + 1, st.(yes := true), files);
      } else if IsOutFlag(a) {
        ScanOut(args, i, st, files);
        ScanIsRun(args, i + 2, st.(outDir := if i + 1 < |args| then args[i + 1] else st.outDir), files);
      } else if a == GoalsOption {
        ScanGoals(args, i, st, files);
        var v := if i + 1 < |args| then Some(args[i + 1]) else None;
        ScanIsRun(args, i + 2, st.(goals := SplitGoals(v.GetOr(""))), files);
      } else if a == GoalsFileOption {
        ScanGoalsFile(args, i, st, files);
        if i + 1 < |args| && args[i + 1] in files {
          ScanIsRun(args, i + 2, st.(goals := GoalLines(files[args[i + 1]])), files);
        }
      } else {
        ScanPositional(args, i, st, files);
        ScanIsRun(args, i + 1, st.(goals := st.goals + [a]), files);
      }
    } else {
      assert From(args, i) == [];
    }
  }

  /** The specification read off the scan. */
  lemma ParseSpecByScan(argv: seq<string>, files: map<string, string>)
    ensures ParseSpec(argv, files) ==
      match Scan(UserArgs(argv), 0, Initial, files)
      case Err(e) => Err(e)
      case Ok(st) => Ok(Finish(st))
  {
    ScanIsRun(UserArgs(argv), 0, Initial, files);
    assert From(UserArgs(argv), 0) == UserArgs(argv);
  }

  /** One turn of the loop of `parseCLI` on the argument at `i`: the index it
      leaves behind, the updated goals, switch and directory, or the error
      `fs.readFileSync` throws. */
  method Turn(args: seq<string>, i: nat, goals: seq<string>, yes: bool, outDir: string, files: map<string, string>)
    returns (next: nat, goals': seq<string>, yes': bool, outDir': string, failure: Option<CliError>)
    requires i < |args|
    ensures i < next <= |args| + 1
    ensures failure.None? ==>
      Scan(args, i, Options(goals, yes, outDir), files) == Scan(args, next, Options(goals', yes', outDir'), files)
    ensures failure.Some? ==> Scan(args, i, Options(goals, yes, outDir), files) == Err(failure.value)
  {
    var st := Options(goals, yes, outDir);
    ScanNext(args, i, st, files);
    goals', yes', outDir', failure := goals, yes, outDir, None;
    var a := args[i];
    if a == "--yes" || a == "-y" {
      yes' := true;
      next := i + 1;
    } else if a == "--out" || a == "-o" {
      if i + 1 < |args| {
        outDir' := args[i + 1];
      }
      next := i + 2;
    } else if a == GoalsOption {
      var val := if i + 1 < |args| then args[i + 1] else "";
      goals' := SplitGoals(val);
      next := i + 2;
    } else if a == GoalsFileOption {
      if i + 1 >= |args| {
        failure := Some(MissingGoalsFilePath);
        next := i + 2;
        return;
      }
      var p := args[i + 1];
      if p !in files {
        failure := Some(UnreadableGoalsFile(p));
        next := i + 2;
        return;
      }
      goals' := GoalLines(files[p]);
      next := i + 2;
    } else {
      goals' := goals + [a];
      next := i + 1;
    }
  }

  /** `parseCLI(argv)`, with the text of each readable file given by `files`; an
      error stands for the exception `fs.readFileSync` throws. */
  method ParseCli(argv: seq<string>, files: map<string, string>) returns (r: Result<Options, CliError>)
    ensures r == ParseSpec(argv, files)
  {
    var args := UserArgs(argv);
    var goals: seq<string> := [];
    var yes := false;
    var outDir := DefaultOutDir;
    var i := 0;
    while i < |args|
      invariant 0 <= i <= |args| + 1
      invariant Scan(args, i, Options(goals, yes, outDir), files) == Scan(args, 0, Initial, files)
      decreases |args| + 1 - i
    {
      var failure;
      i, goals, yes, outDir, failure := Turn(args, i, goals, yes, outDir, files);
      if failure.Some? {
        ParseSpecByScan(argv, files);
        return Err(failure.value);
      }
    }
    ParseSpecByScan(argv, files);
    if |goals| == 0 {
      goals := [DefaultGoal];
    }
    return Ok(Options(goals, yes, outDir));
  }

  // ---------------------------------------------------------------------------
  // What the parse result says about the arguments.

  /** An `--out`/`-o` token that found a value. */
  predicate SetsOut(t: Arg) {
    t.OutFlag? && t.dir.Some?
  }

  /** Some token is `--yes` or `-y`. */
  predicate HasYes(toks: seq<Arg>) {
    exists k | 0 <= k < |toks| :: toks[k].YesFlag?
  }

  /** `d` is the value of the last `--out`/`-o` token that found one, or `start`
      when there is none. */
  predicate LastOut(toks: seq<Arg>, d: string, start: string) {
    || (exists k | 0 <= k < |toks| ::
          SetsOut(toks[k]) && d == toks[k].dir.value && forall j | k < j < |toks| :: !SetsOut(toks[j]))
    || (d == start && forall j | 0 <= j < |toks| :: !SetsOut(toks[j]))
  }

  /** A token that replaces the goals collected so far. */
  predicate Replaces(t: Arg) {
    t.GoalsFlag? || t.GoalsFileFlag?
  }

  /** A `--goals-file` token whose file cannot be read. */
  predicate BadFile(t: Arg, files: map<string, string>) {
    t.GoalsFileFlag? && (t.path.None? || t.path.value !in files)
  }

  /** The error a bad `--goals-file` token raises. */
  function FileError(t: Arg): CliError
    requires t.GoalsFileFlag?
  {
    if t.path.None? then MissingGoalsFilePath else UnreadableGoalsFile(t.path.value)
  }

  /** The goals a replacing token installs. */
  function Replacement(t: Arg, files: map<string, string>): seq<string>
    requires Replaces(t)
  {
    match t
    case GoalsFlag(v) => SplitGoals(v.GetOr(""))
    case GoalsFileFlag(p) => if p.Some? && p.value in files then GoalLines(files[p.value]) else []
  }

  /** The positional goals among `toks`, in order. */
  function Positionals(toks: seq<Arg>): seq<string> {
    if toks == [] then []
    else (if toks[0].Positional? then [toks[0].text] else []) + Positionals(toks[1..])
  }

  /** The scan fails exactly when some `--goals-file` has no readable file, and then
      with the error of the first such token. */
  lemma {:induction false} RunFails(st: Options, toks: seq<Arg>, files: map<string, string>)
    ensures Run(st, toks, files).Err? <==> exists k | 0 <= k < |toks| :: BadFile(toks[k], files)
    ensures Run(st, toks, files).Err? ==>
      exists k | 0 <= k < |toks| ::
        && BadFile(toks[k], files)
        && (forall j | 0 <= j < k :: !BadFile(toks[j], files))
        && Run(st, toks, files).error == FileError(toks[k])
    decreases |toks|
  {
    if toks != [] {
      var t := toks[0];
      if BadFile(t, files) {
        assert Run(st, toks, files) == Err(FileError(t));
      } else {
        var st' := Step(st, t, files).value;
        RunFails(st', toks[1..], files);
        assert Run(st, toks, files) == Run(st', toks[1..], files);
        if exists k | 0 <= k < |toks[1..]| :: BadFile(toks[1..][k], files) {
          var k :| 0 <= k < |toks[1..]| && BadFile(toks[1..][k], files);
          assert BadFile(toks[k + 1], files);
        }
        if exists k | 0 <= k < |toks| :: BadFile(toks[k], files) {
          var k :| 0 <= k < |toks| && BadFile(toks[k], files);
          assert k > 0;
          assert BadFile(toks[1..][k - 1], files);
        }
        if Run(st, toks, files).Err? {
          var k :| 0 <= k < |toks[1..]| && BadFile(toks[1..][k], files)
            && (forall j | 0 <= j < k :: !BadFile(toks[1..][j], files))
            && Run(st', toks[1..], files).error == FileError(toks[1..][k]);
          assert toks[k + 1] == toks[1..][k];
          forall j | 0 <= j < k + 1 ensures !BadFile(toks[j], files) {
            if j > 0 {
              assert toks[j] == toks[1..][j - 1];
            }
          }
        }
      }
    }
  }

  /** `yes` ends up true exactly when it started true or some token is `--yes`/`-y`. */
  lemma {:induction false} RunYes(st: Options, toks: seq<Arg>, files: map<string, string>)
    requires Run(st, toks, files).Ok?
    ensures Run(st, toks, files).value.yes <==> st.yes || HasYes(toks)
    decreases |toks|
  {
    if toks != [] {
      var st' := Step(st, toks[0], files).value;
      RunYes(st', toks[1..], files);
      if exists k | 0 <= k < |toks[1..]| :: toks[1..][k].YesFlag? {
        var k :| 0 <= k < |toks[1..]| && toks[1..][k].YesFlag?;
        assert toks[k + 1].YesFlag?;
      }
      if exists k | 0 <= k < |toks| :: toks[k].YesFlag? {
        var k :| 0 <= k < |toks| && toks[k].YesFlag?;
        if k > 0 {
          assert toks[1..][k - 1].YesFlag?;
        }
      }
    }
  }

  /** The output directory is the value of the last `--out`/`-o` that found one, or
      the starting one when none did. */
  lemma {:induction false} RunOutDir(st: Options, toks: seq<Arg>, files: map<string, string>)
    requires Run(st, toks, files).Ok?
    ensures LastOut(toks, Run(st, toks, files).value.outDir, st.outDir)
    decreases |toks|
  {
    if toks != [] {
      var t := toks[0];
      var st' := Step(st, t, files).value;
      var rest := toks[1..];
      RunOutDir(st', rest, files);
      var d := Run(st, toks, files).value.outDir;
      assert d == Run(st', rest, files).value.outDir;
      if exists k | 0 <= k < |rest| :: SetsOut(rest[k]) && d == rest[k].dir.value && forall j | k < j < |rest| :: !SetsOut(rest[j]) {
        var k :| 0 <= k < |rest| && SetsOut(rest[k]) && d == rest[k].dir.value && forall j | k < j < |rest| :: !SetsOut(rest[j]);
        assert toks[k + 1] == rest[k];
        forall j | k + 1 < j < |toks| ensures !SetsOut(toks[j]) {
          assert toks[j] == rest[j - 1];
        }
      } else {
        assert d == st'.outDir && forall j | 0 <= j < |rest| :: !SetsOut(rest[j]);
        forall j | 0 < j < |toks| ensures !SetsOut(toks[j]) {
          assert toks[j] == rest[j - 1];
        }
        if SetsOut(t) {
          assert d == toks[0].dir.value;
        }
      }
    }
  }

  /** No token from index `from` on replaces the goals. */
  predicate NoReplace(toks: seq<Arg>, from: nat) {
    forall j | from <= j < |toks| :: !Replaces(toks[j])
  }

  /** `toks[k]` is the last replacing token, and `g` is what it installed followed by
      the positional goals after it. */
  predicate ReplacedAt(toks: seq<Arg>, k: nat, g: seq<string>, files: map<string, string>) {
    && k < |toks| && Replaces(toks[k]) && NoReplace(toks, k + 1)
    && g == Replacement(toks[k], files) + Positionals(toks[k + 1..])
  }

  /** `g` is what the last replacing token installed followed by the positional
      goals after it, or, without a replacing token, `start` followed by all
      positional goals. */
  predicate LastGoals(toks: seq<Arg>, g: seq<string>, start: seq<string>, files: map<string, string>) {
    || (exists k: nat | k < |toks| :: ReplacedAt(toks, k, g, files))
    || (g == start + Positionals(toks) && NoReplace(toks, 0))
  }

  lemma ReplacedShift(toks: seq<Arg>, k: nat, g: seq<string>, files: map<string, string>)
    requires toks != [] && ReplacedAt(toks[1..], k, g, files)
    ensures ReplacedAt(toks, k + 1, g, files)
  {
    assert toks[k + 1] == toks[1..][k] && toks[k + 2..] == toks[1..][k + 1..];
    forall j | k + 1 < j < |toks| ensures !Replaces(toks[j]) {
      assert toks[j] == toks[1..][j - 1];
    }
  }

  lemma NoReplaceShift(toks: seq<Arg>)
    requires toks != [] && NoReplace(toks[1..], 0)
    ensures NoReplace(toks, 1)
  {
    forall j | 0 < j < |toks| ensures !Replaces(toks[j]) {
      assert toks[j] == toks[1..][j - 1];
    }
  }

  /** The goals are the ones the last replacing token installed, followed by the
      positional goals after it; without a replacing token, the starting goals
      followed by all positional goals. */
  lemma {:induction false} RunGoals(st: Options, toks: seq<Arg>, files: map<string, string>)
    requires Run(st, toks, files).Ok?
    ensures LastGoals(toks, Run(st, toks, files).value.goals, st.goals, files)
    decreases |toks|
  {
    if toks != [] {
      var t := toks[0];
      var st' := Step(st, t, files).value;
      var rest := toks[1..];
      RunGoals(st', rest, files);
      var g := Run(st, toks, files).value.goals;
      assert g == Run(st', rest, files).value.goals;
      if exists k: nat | k < |rest| :: ReplacedAt(rest, k, g, files) {
        LaterReplacement(toks, g, files);
      } else {
        FirstReplacement(st, toks, g, files);
      }
    }
  }

  /** A replacement in the tail is a replacement of the whole token list. */
  lemma LaterReplacement(toks: seq<Arg>, g: seq<string>, files: map<string, string>)
    requires toks != [] && exists k: nat | k < |toks[1..]| :: ReplacedAt(toks[1..], k, g, files)
    ensures exists k: nat | k < |toks| :: ReplacedAt(toks, k, g, files)
  {
    var k: nat :| k < |toks[1..]| && ReplacedAt(toks[1..], k, g, files);
    ReplacedShift(toks, k, g, files);
  }

  /** Without a replacement in the tail, the goals are those the first token leaves,
      followed by the positional goals of the tail. */
  lemma FirstReplacement(st: Options, toks: seq<Arg>, g: seq<string>, files: map<string, string>)
    requires toks != [] && Step(st, toks[0], files).Ok? && NoReplace(toks[1..], 0)
    requires g == Step(st, toks[0], files).value.goals + Positionals(toks[1..])
    ensures LastGoals(toks, g, st.goals, files)
  {
    NoReplaceShift(toks);
    if Replaces(toks[0]) {
      ReplacingFirst(st, toks, g, files);
    } else {
      StepGoals(st, toks[0], files);
      PlainFirst(toks, st.goals, g);
      NoReplaceCons(toks);
    }
  }

  lemma ReplacingFirst(st: Options, toks: seq<Arg>, g: seq<string>, files: map<string, string>)
    requires toks != [] && Replaces(toks[0]) && Step(st, toks[0], files).Ok? && NoReplace(toks, 1)
    requires g == Step(st, toks[0], files).value.goals + Positionals(toks[1..])
    ensures ReplacedAt(toks, 0, g, files)
  {
    assert Step(st, toks[0], files).value.goals == Replacement(toks[0], files);
  }

  lemma PlainFirst(toks: seq<Arg>, start: seq<string>, g: seq<string>)
    requires toks != [] && !Replaces(toks[0])
    requires g == (start + (if toks[0].Positional? then [toks[0].text] else [])) + Positionals(toks[1..])
    ensures g == start + Positionals(toks)
  {
    var x, rest := if toks[0].Positional? then [toks[0].text] else [], Positionals(toks[1..]);
    assert Positionals(toks) == x + rest;
    assert (start + x) + rest == start + (x + rest);
  }

  /** A token that does not replace the goals keeps them, or appends its own text. */
  lemma StepGoals(st: Options, t: Arg, files: map<string, string>)
    requires !Replaces(t) && Step(st, t, files).Ok?
    ensures Step(st, t, files).value.goals == st.goals + (if t.Positional? then [t.text] else [])
  {
    if !t.Positional? {
      assert st.goals + [] == st.goals;
    }
  }

  lemma NoReplaceCons(toks: seq<Arg>)
    requires toks != [] && !Replaces(toks[0]) && NoReplace(toks, 1)
    ensures NoReplace(toks, 0)
  {
    forall j | 0 <= j < |toks| ensures !Replaces(toks[j]) {
      if j > 0 { assert !Replaces(toks[j]); }
    }
  }

  /** `parseCLI` always ends with at least one goal. */
  lemma GoalsNeverEmpty(argv: seq<string>, files: map<string, string>)
    ensures ParseSpec(argv, files).Ok? ==> ParseSpec(argv, files).value.goals != []
  {
    var r := Run(Initial, Tokenize(UserArgs(argv)), files);
    if r.Ok? {
      assert ParseSpec(argv, files) == Ok(Finish(r.value));
    }
  }

  /** `parseCLI` throws exactly when a `--goals-file` option has no readable path. */
  lemma ParseFails(argv: seq<string>, files: map<string, string>)
    ensures ParseSpec(argv, files).Err? <==>
      exists k | 0 <= k < |Tokenize(UserArgs(argv))| :: BadFile(Tokenize(UserArgs(argv))[k], files)
  {
    var r := Run(Initial, Tokenize(UserArgs(argv)), files);
    RunFails(Initial, Tokenize(UserArgs(argv)), files);
    assert ParseSpec(argv, files).Err? == r.Err?;
  }

  /** The parsed switches: `yes` exactly when an unconsumed argument is `--yes` or
      `-y`, and the directory of the last `--out`/`-o` that found one, else "plans". */
  lemma ParseSwitches(argv: seq<string>, files: map<string, string>)
    requires ParseSpec(argv, files).Ok?
    ensures ParseSpec(argv, files).value.yes <==> HasYes(Tokenize(UserArgs(argv)))
    ensures LastOut(Tokenize(UserArgs(argv)), ParseSpec(argv, files).value.outDir, DefaultOutDir)
  {
    var toks := Tokenize(UserArgs(argv));
    var st := Run(Initial, toks, files).value;
    assert ParseSpec(argv, files).value == Finish(st);
    RunYes(Initial, toks, files);
    RunOutDir(Initial, toks, files);
  }

  /** `parseCLI`'s goals are what the last `--goals` or `--goals-file` installed,
      followed by the positional goals after it (without either option, all the
      positional goals), and the default goal when that leaves none. */
  lemma ParseGoals(argv: seq<string>, files: map<string, string>)
    requires ParseSpec(argv, files).Ok?
    ensures exists g ::
      && LastGoals(Tokenize(UserArgs(argv)), g, [], files)
      && ParseSpec(argv, files).value.goals == if g == [] then [DefaultGoal] else g
  {
    var toks := Tokenize(UserArgs(argv));
    var st := Run(Initial, toks, files).value;
    assert ParseSpec(argv, files).value == Finish(st);
    RunGoals(Initial, toks, files);
    assert LastGoals(toks, st.goals, [], files);
  }

  // ---------------------------------------------------------------------------
  // The goals of `--goals` and `--goals-file`.

  /** Each goal `--goals` yields is a non-empty, trimmed piece without a `|`. */
  lemma SplitGoalShape(val: string, g: string)
    requires g in SplitGoals(val)
    ensures g != [] && Trim(g) == g && '|' !in g
  {
    var pieces := Split(val, '|');
    FilterMembers(TrimAll(pieces), NonEmpty);
    var k :| 0 <= k < |TrimAll(pieces)| && TrimAll(pieces)[k] == g;
    TrimIdempotent(pieces[k]);
    if '|' in g {
      SplitPieces(val, '|');
      TrimChars(pieces[k], '|');
    }
  }

  /** Every piece between `|`s that is not blank becomes a goal. */
  lemma SplitGoalsKeep(val: string, k: nat)
    requires k < |Split(val, '|')| && Trim(Split(val, '|')[k]) != []
    ensures Trim(Split(val, '|')[k]) in SplitGoals(val)
  {
    FilterMembers(TrimAll(Split(val, '|')), NonEmpty);
    assert TrimAll(Split(val, '|'))[k] == Trim(Split(val, '|')[k]);
  }

  /** A trimmed, non-empty goal with neither white space at its ends nor a `|` keeps
      its place in a `|`-separated list. */
  predicate ListableGoal(g: string) {
    g != [] && Trim(g) == g && '|' !in g
  }

  /** `--goals` gives back the goals a `|`-separated list was joined from. */
  lemma SplitGoalsJoin(goals: seq<string>)
    requires forall k :: 0 <= k < |goals| ==> ListableGoal(goals[k])
    ensures SplitGoals(Join(goals, '|')) == goals
  {
    if goals == [] {
      EmptyPieces('|');
    } else {
      forall p | p in goals ensures '|' !in p {
        var k :| 0 <= k < |goals| && goals[k] == p;
        assert ListableGoal(goals[k]);
      }
      SplitJoin(goals, '|');
      KeepListable(goals);
    }
  }

  /** Trimming and dropping blanks leaves listable goals as they are. */
  lemma KeepListable(goals: seq<string>)
    requires forall k :: 0 <= k < |goals| ==> ListableGoal(goals[k])
    ensures Filter(TrimAll(goals), NonEmpty) == goals
  {
    TrimAllTrimmed(goals);
    assert forall x :: x in goals ==> NonEmpty(x);
    FilterAllKept(goals, NonEmpty);
  }

  /** The empty text is one empty piece, which trims to nothing and is dropped. */
  lemma EmptyPieces(sep: char)
    ensures TrimAll(Split([], sep)) == [[]]
  {
    assert Split([], sep) == [[]];
    assert Trim([]) == [];
  }

  lemma TrimAllTrimmed(pieces: seq<string>)
    requires forall k :: 0 <= k < |pieces| ==> Trim(pieces[k]) == pieces[k]
    ensures TrimAll(pieces) == pieces
  {
  }

  /** Once trimmed, the lines `split(/\r?\n/)` gives are the pieces of `split("\n")`:
      a carriage return before a line feed makes no difference to the goals. */
  lemma TrimAllLines(text: string)
    ensures TrimAll(SplitLines(text)) == TrimAll(Split(text, '\n'))
  {
    SplitLinesTrimmed(text);
  }

  /** Each goal `--goals-file` yields is a non-empty, trimmed line that is not a
      `#` comment. */
  lemma GoalLineShape(text: string, l: string)
    requires l in GoalLines(text)
    ensures l != [] && l[0] != '#' && Trim(l) == l && '\n' !in l
  {
    TrimAllLines(text);
    var pieces := Split(text, '\n');
    FilterMembers(TrimAll(pieces), IsGoalLine);
    var k :| 0 <= k < |TrimAll(pieces)| && TrimAll(pieces)[k] == l;
    TrimIdempotent(pieces[k]);
    if '\n' in l {
      SplitPieces(text, '\n');
      TrimChars(pieces[k], '\n');
    }
  }

  /** A line that is neither blank nor a comment once trimmed becomes a goal. */
  lemma GoalLinesKeep(text: string, k: nat)
    requires k < |SplitLines(text)| && IsGoalLine(Trim(SplitLines(text)[k]))
    ensures Trim(SplitLines(text)[k]) in GoalLines(text)
  {
    FilterMembers(TrimAll(SplitLines(text)), IsGoalLine);
    assert TrimAll(SplitLines(text))[k] == Trim(SplitLines(text)[k]);
  }

  /** A goal that survives as one line of a goals file. */
  predicate FileGoal(l: string) {
    IsGoalLine(l) && Trim(l) == l && '\n' !in l
  }

  /** A goals file written one goal per line is read back as those goals. */
  lemma GoalLinesJoin(lines: seq<string>)
    requires forall k :: 0 <= k < |lines| ==> FileGoal(lines[k])
    ensures GoalLines(Join(lines, '\n')) == lines
  {
    var text := Join(lines, '\n');
    GoalLinesBySplit(text);
    if lines == [] {
      EmptyPieces('\n');
    } else {
      forall x | x in lines ensures '\n' !in x && IsGoalLine(x) {
        var k :| 0 <= k < |lines| && lines[k] == x;
        assert FileGoal(lines[k]);
      }
      SplitJoin(lines, '\n');
      TrimAllTrimmed(lines);
      FilterAllKept(lines, IsGoalLine);
    }
  }

  lemma GoalLinesBySplit(text: string)
    ensures GoalLines(text) == Filter(TrimAll(Split(text, '\n')), IsGoalLine)
  {
    TrimAllLines(text);
  }
}
