/** The goal-to-pattern mapper of `planner.ts` and the fixed path patterns the
    planner narrows its target lists with.

    Every regular expression of the source is written out by hand as a predicate
    that says, in terms of positions in the string, when the expression finds a
    match. The expressions are all built from literal pieces separated by `\s*` (a
    run of white space) or `.*` (a run of characters other than line terminators),
    joined by alternation, and all carry the `i` flag, which is modelled by
    lowering ASCII letters on both sides. */
module GoalPatterns {
  import opened Text

  /** What may stand between two literal pieces of a pattern. */
  datatype Gap =
    | Spaces     // `\s*`
    | AnyInLine  // `.*`

  predicate InGap(gap: Gap, c: char) {
    match gap
    case Spaces => IsSpace(c)
    case AnyInLine => !IsLineTerminator(c)
  }

  /** `s[i..j]` consists of gap characters only. */
  predicate GapRun(s: string, gap: Gap, i: int, j: int) {
    0 <= i <= j <= |s| && forall k :: i <= k < j ==> InGap(gap, s[k])
  }

  /** The literal `pieces` occur in order from position `i` on, separated by gaps. */
  predicate PiecesAt(s: string, i: int, pieces: seq<string>, gap: Gap)
    decreases |pieces|
  {
    if pieces == [] then 0 <= i <= |s|
    else
      && StartsAt(s, i, pieces[0])
      && (|pieces| == 1 ||
          exists j | i + |pieces[0]| <= j <= |s| ::
            GapRun(s, gap, i + |pieces[0]|, j) && PiecesAt(s, j, pieces[1..], gap))
  }

  /** The pattern `pieces[0] gap pieces[1] gap ...` finds a match somewhere in `s`. */
  predicate Matches(s: string, pieces: seq<string>, gap: Gap) {
    exists i | 0 <= i <= |s| :: PiecesAt(s, i, pieces, gap)
  }

  /** Every piece of a pattern that matches occurs in the text. */
  lemma {:induction false} PiecesAtOccur(s: string, i: int, pieces: seq<string>, gap: Gap, k: nat)
    requires PiecesAt(s, i, pieces, gap) && k < |pieces|
    ensures Occurs(s, pieces[k])
    decreases |pieces|
  {
    if k == 0 {
      assert StartsAt(s, i, pieces[0]);
    } else {
      var j :| i + |pieces[0]| <= j <= |s| && GapRun(s, gap, i + |pieces[0]|, j) && PiecesAt(s, j, pieces[1..], gap);
      PiecesAtOccur(s, j, pieces[1..], gap, k - 1);
    }
  }

  /** A pattern with a piece holding a character that the text lacks finds no
      match in it. */
  lemma AbsentCharBlocksMatch(s: string, pieces: seq<string>, gap: Gap, k: nat, c: char)
    requires k < |pieces| && c in pieces[k] && c !in s
    ensures !Matches(s, pieces, gap)
  {
    if Matches(s, pieces, gap) {
      var i :| 0 <= i <= |s| && PiecesAt(s, i, pieces, gap);
      PiecesAtOccur(s, i, pieces, gap, k);
      AbsentCharBlocks(s, pieces[k], c);
    }
  }

  // ---------------------------------------------------------------------------
  // The four goal triggers and the dark-mode branch test (planner.ts).

  /** `/(dark\s*mode|theme|light\s*\/\?\s*dark|color\s*scheme)/i`. The escaped `\?`
      is a literal question mark, so the third alternative needs the text "/?"
      between "light" and "dark". */
  predicate ThemeTrigger(text: string) {
    var s := Lower(text);
    || Matches(s, ["dark", "mode"], Spaces)
    || Occurs(s, "theme")
    || Matches(s, ["light", "/?", "dark"], Spaces)
    || Matches(s, ["color", "scheme"], Spaces)
  }

  /** `/(navbar|nav|header|app\s*bar|topbar)/i` */
  predicate NavTrigger(text: string) {
    var s := Lower(text);
    || Occurs(s, "navbar")
    || Occurs(s, "nav")
    || Occurs(s, "header")
    || Matches(s, ["app", "bar"], Spaces)
    || Occurs(s, "topbar")
  }

  /** `/(skeleton|loading|placeholder)/i` */
  predicate LoadingTrigger(text: string) {
    var s := Lower(text);
    Occurs(s, "skeleton") || Occurs(s, "loading") || Occurs(s, "placeholder")
  }

  /** `/(axios|fetch|http|request)/i` */
  predicate HttpTrigger(text: string) {
    var s := Lower(text);
    Occurs(s, "axios") || Occurs(s, "fetch") || Occurs(s, "http") || Occurs(s, "request")
  }

  /** `/dark\s*mode|theme/i`, the test that chooses the dark-mode template. */
  predicate IsDarkMode(goal: string) {
    var s := Lower(goal);
    Matches(s, ["dark", "mode"], Spaces) || Occurs(s, "theme")
  }

  // ---------------------------------------------------------------------------
  // Keyword groups.

  datatype Rule = ThemeRule | NavRule | LoadingRule | HttpRule

  /** The rules in the order the source tests them. */
  const RuleOrder: seq<Rule> := [ThemeRule, NavRule, LoadingRule, HttpRule]

  predicate Fires(rule: Rule, text: string) {
    match rule
    case ThemeRule => ThemeTrigger(text)
    case NavRule => NavTrigger(text)
    case LoadingRule => LoadingTrigger(text)
    case HttpRule => HttpTrigger(text)
  }

  function Group(rule: Rule): seq<string> {
    match rule
    case ThemeRule => ["dark", "theme", "toggle", "color", "scheme"]
    case NavRule => ["navbar", "header", "layout"]
    case LoadingRule => ["skeleton", "loading", "placeholder"]
    case HttpRule => ["axios", "fetch", "api", "service"]
  }

  const FallbackKeywords: seq<string> := ["util", "config", "index", "app", "layout"]

  /** The groups of the rules in `rules` that fire on `text`, concatenated in order. */
  function FiredKeywords(rules: seq<Rule>, text: string): seq<string> {
    if rules == [] then []
    else (if Fires(rules[0], text) then Group(rules[0]) else []) + FiredKeywords(rules[1..], text)
  }

  /** The keywords `derivePatternsFromGoal` collects for `goal`: the groups of the
      rules that fire on the lowered goal, in rule order, or the fallback when none
      fires. */
  function GoalKeywords(goal: string): seq<string> {
    var fired := FiredKeywords(RuleOrder, Lower(goal));
    if fired == [] then FallbackKeywords else fired
  }

  /** The keyword list built the way `derivePatternsFromGoal` builds it: four
      independent tests, each appending its group, then the fallback if nothing
      was appended. */
  method DeriveKeywords(goal: string) returns (keys: seq<string>)
    ensures keys == GoalKeywords(goal)
    ensures keys != []
    ensures keys == FallbackKeywords <==> forall r :: r in RuleOrder ==> !Fires(r, goal)
  {
    var g := Lower(goal);
    LowerIdempotent(goal);
    FiredKeywordsAppended(g);
    keys := [];
    if ThemeTrigger(g) {
      keys := keys + Group(ThemeRule);
    }
    if NavTrigger(g) {
      keys := keys + Group(NavRule);
    }
    if LoadingTrigger(g) {
      keys := keys + Group(LoadingRule);
    }
    if HttpTrigger(g) {
      keys := keys + Group(HttpRule);
    }
    if |keys| == 0 {
      keys := FallbackKeywords;
    }
    KeywordsNonEmpty(goal);
    FallbackExactlyWhenNoRuleFires(goal);
  }

  /** The fired groups as four successive appends to an empty list. */
  lemma FiredKeywordsAppended(text: string)
    ensures FiredKeywords(RuleOrder, text) ==
      ((([] + (if ThemeTrigger(text) then Group(ThemeRule) else [])) +
      (if NavTrigger(text) then Group(NavRule) else [])) +
      (if LoadingTrigger(text) then Group(LoadingRule) else [])) +
      (if HttpTrigger(text) then Group(HttpRule) else [])
  {
    FiredKeywordsInOrder(text);
    AppendAssoc(if ThemeTrigger(text) then Group(ThemeRule) else [],
      if NavTrigger(text) then Group(NavRule) else [],
      if LoadingTrigger(text) then Group(LoadingRule) else [],
      if HttpTrigger(text) then Group(HttpRule) else []);
  }

  lemma AppendAssoc(a: seq<string>, b: seq<string>, c: seq<string>, d: seq<string>)
    ensures ((([] + a) + b) + c) + d == a + (b + (c + d))
  {
    assert [] + a == a;
  }

  /** A rule fires on the lowered goal exactly when it fires on the goal. */
  lemma FiresLowered(rule: Rule, goal: string)
    ensures Fires(rule, Lower(goal)) == Fires(rule, goal)
  {
    LowerIdempotent(goal);
  }

  /** The fired groups, written out for the four rules in their order. */
  lemma FiredKeywordsInOrder(text: string)
    ensures FiredKeywords(RuleOrder, text) ==
      (if ThemeTrigger(text) then Group(ThemeRule) else []) +
      ((if NavTrigger(text) then Group(NavRule) else []) +
      ((if LoadingTrigger(text) then Group(LoadingRule) else []) +
      (if HttpTrigger(text) then Group(HttpRule) else [])))
  {
    var r4: seq<Rule> := [HttpRule];
    var r3: seq<Rule> := [LoadingRule, HttpRule];
    var r2: seq<Rule> := [NavRule, LoadingRule, HttpRule];
    assert r4[1..] == [] && r3[1..] == r4 && r2[1..] == r3 && RuleOrder[1..] == r2;
    FiredCons(r4, text);
    FiredCons(r3, text);
    FiredCons(r2, text);
    FiredCons(RuleOrder, text);
  }

  lemma FiredCons(rules: seq<Rule>, text: string)
    requires rules != []
    ensures FiredKeywords(rules, text) == (if Fires(rules[0], text) then Group(rules[0]) else []) + FiredKeywords(rules[1..], text)
  {
  }

  /** No goal yields an empty keyword list, so the pattern never becomes the empty
      alternation that would match every path. */
  lemma KeywordsNonEmpty(goal: string)
    ensures GoalKeywords(goal) != []
  {
  }

  /** The fallback is used exactly when none of the four rules fires. */
  lemma FallbackExactlyWhenNoRuleFires(goal: string)
    ensures GoalKeywords(goal) == FallbackKeywords <==> forall r :: r in RuleOrder ==> !Fires(r, goal)
  {
    FallbackWhenNoneFires(RuleOrder, Lower(goal));
    FiresLoweredAll(goal);
  }

  lemma FallbackWhenNoneFires(rules: seq<Rule>, text: string)
    ensures var fired := FiredKeywords(rules, text);
      (if fired == [] then FallbackKeywords else fired) == FallbackKeywords
      <==> forall r :: r in rules ==> !Fires(r, text)
  {
    var fired := FiredKeywords(rules, text);
    FiredEmpty(rules, text);
    if fired != [] {
      // no group holds "util", which the fallback starts with
      FiredMembership(rules, text, "util");
      forall r {
        UtilInNoGroup(r);
      }
      assert "util" in FallbackKeywords;
    }
  }

  lemma UtilInNoGroup(r: Rule)
    ensures "util" !in Group(r)
  {
    assert "util"[0] == 'u';
    match r
    case ThemeRule => assert forall k :: k in Group(r) ==> k[0] != 'u';
    case NavRule => assert forall k :: k in Group(r) ==> k[0] != 'u';
    case LoadingRule => assert forall k :: k in Group(r) ==> k[0] != 'u';
    case HttpRule => assert forall k :: k in Group(r) ==> k[0] != 'u';
  }

  lemma FiresLoweredAll(goal: string)
    ensures forall r :: Fires(r, Lower(goal)) == Fires(r, goal)
  {
    forall r {
      FiresLowered(r, goal);
    }
  }

  /** A keyword is in the list exactly when it belongs to the group of a rule that
      fires, or, when none fires, to the fallback. */
  lemma KeywordMembership(goal: string, k: string)
    ensures k in GoalKeywords(goal) <==>
      if exists r :: r in RuleOrder && Fires(r, goal)
      then exists r :: r in RuleOrder && Fires(r, goal) && k in Group(r)
      else k in FallbackKeywords
  {
    var g := Lower(goal);
    FiredMembership(RuleOrder, g, k);
    FiredEmpty(RuleOrder, g);
    forall r | r in RuleOrder {
      FiresLowered(r, goal);
    }
  }

  lemma {:induction false} FiredMembership(rules: seq<Rule>, text: string, k: string)
    ensures k in FiredKeywords(rules, text) <==> exists r :: r in rules && Fires(r, text) && k in Group(r)
    decreases |rules|
  {
    if rules != [] {
      FiredMembership(rules[1..], text, k);
      assert forall r :: r in rules <==> r == rules[0] || r in rules[1..];
    }
  }

  lemma {:induction false} FiredEmpty(rules: seq<Rule>, text: string)
    ensures FiredKeywords(rules, text) == [] <==> forall r :: r in rules ==> !Fires(r, text)
    decreases |rules|
  {
    if rules != [] {
      FiredEmpty(rules[1..], text);
      assert Group(rules[0]) != [];
      assert forall r :: r in rules <==> r == rules[0] || r in rules[1..];
    }
  }

  // ---------------------------------------------------------------------------
  // The compiled goal pattern.

  /** `rx.test(path)` for the pattern `new RegExp(keys.map(escape).join("|"), "i")`:
      some keyword occurs in the path, ignoring case. */
  predicate GoalMatches(keys: seq<string>, path: string) {
    exists k | k in keys :: OccursIgnoringCase(path, k)
  }

  /** The characters `k.replace(/[-/\\^$*+?.()|[\]{}]/g, "\\$&")` escapes. */
  predicate IsRegExpSpecial(c: char) {
    || c == '-' || c == '/' || c == '\\' || c == '^' || c == '$' || c == '*' || c == '+' || c == '?'
    || c == '.' || c == '(' || c == ')' || c == '|' || c == '[' || c == ']' || c == '{' || c == '}'
  }

  /** Each special character preceded by a backslash. The contract only bounds
      the length; what the planner relies on is that a keyword is left as it is
      (`EscapeWord`, with `KeywordsAreWords` and `PatternAlternatives`). */
  function Escape(k: string): (e: string)
    ensures |e| >= |k|
  {
    if k == [] then []
    else (if IsRegExpSpecial(k[0]) then ['\\', k[0]] else [k[0]]) + Escape(k[1..])
  }

  /** The source text of the goal pattern. */
  function PatternSource(keys: seq<string>): string {
    Join(seq(|keys|, i requires 0 <= i < |keys| => Escape(keys[i])), '|')
  }

  /** `k` is made of lower-case ASCII letters only. */
  predicate IsWord(k: string) {
    forall i :: 0 <= i < |k| ==> 'a' <= k[i] <= 'z'
  }

  lemma {:induction false} EscapeWord(k: string)
    requires IsWord(k)
    ensures Escape(k) == k
    decreases |k|
  {
    if k != [] {
      assert !IsRegExpSpecial(k[0]);
      assert IsWord(k[1..]) by {
        forall i | 0 <= i < |k| - 1
          ensures 'a' <= k[1..][i] <= 'z'
        {
          assert k[1..][i] == k[i + 1];
        }
      }
      EscapeWord(k[1..]);
    }
  }

  lemma GroupWords(rule: Rule)
    ensures forall k :: k in Group(rule) ==> IsWord(k)
  {
    match rule
    case ThemeRule => ThemeWords();
    case NavRule => NavWords();
    case LoadingRule => LoadingWords();
    case HttpRule => HttpWords();
  }

  lemma ThemeWords()
    ensures forall k :: k in Group(ThemeRule) ==> IsWord(k)
  {
    assert IsWord("dark") && IsWord("theme") && IsWord("toggle") && IsWord("color") && IsWord("scheme");
  }

  lemma NavWords()
    ensures forall k :: k in Group(NavRule) ==> IsWord(k)
  {
    assert IsWord("navbar") && IsWord("header") && IsWord("layout");
  }

  lemma LoadingWords()
    ensures forall k :: k in Group(LoadingRule) ==> IsWord(k)
  {
    assert IsWord("skeleton") && IsWord("loading") && IsWord("placeholder");
  }

  lemma HttpWords()
    ensures forall k :: k in Group(HttpRule) ==> IsWord(k)
  {
    assert IsWord("axios") && IsWord("fetch") && IsWord("api") && IsWord("service");
  }

  lemma FallbackWords()
    ensures forall k :: k in FallbackKeywords ==> IsWord(k)
  {
    assert IsWord("util") && IsWord("config") && IsWord("index") && IsWord("app") && IsWord("layout");
  }

  /** Every keyword any goal can produce is a lower-case word. */
  lemma KeywordsAreWords(goal: string)
    ensures forall k :: k in GoalKeywords(goal) ==> IsWord(k)
  {
    FiredWords(RuleOrder, Lower(goal));
    FallbackWords();
  }

  lemma {:induction false} FiredWords(rules: seq<Rule>, text: string)
    ensures forall k :: k in FiredKeywords(rules, text) ==> IsWord(k)
    decreases |rules|
  {
    if rules != [] {
      GroupWords(rules[0]);
      FiredWords(rules[1..], text);
    }
  }

  /** Escaping leaves every keyword unchanged and no keyword holds a `|`, so the
      alternatives of the compiled pattern are exactly the keywords: the pattern is
      the plain-literal alternation that `GoalMatches` reads. */
  lemma PatternAlternatives(goal: string)
    ensures Split(PatternSource(GoalKeywords(goal)), '|') == GoalKeywords(goal)
  {
    var keys := GoalKeywords(goal);
    KeywordsAreWords(goal);
    forall i | 0 <= i < |keys|
      ensures Escape(keys[i]) == keys[i]
    {
      EscapeWord(keys[i]);
    }
    assert seq(|keys|, i requires 0 <= i < |keys| => Escape(keys[i])) == keys;
    KeywordsNonEmpty(goal);
    SplitJoin(keys, '|');
  }

  // ---------------------------------------------------------------------------
  // The fixed path patterns of `buildPlan`.

  /** `/(navbar|header|app[-_/]?bar|topbar)/i` */
  predicate NavbarPath(path: string) {
    var s := Lower(path);
    || Occurs(s, "navbar")
    || Occurs(s, "header")
    || Occurs(s, "appbar") || Occurs(s, "app-bar") || Occurs(s, "app_bar") || Occurs(s, "app/bar")
    || Occurs(s, "topbar")
  }

  /** `/(global\.css|globals\.css|styles?\/.*\.css|tailwind\.config\.(js|ts))/i` */
  predicate StylePath(path: string) {
    var s := Lower(path);
    || Occurs(s, "global.css")
    || Occurs(s, "globals.css")
    || Matches(s, ["style/", ".css"], AnyInLine)
    || Matches(s, ["styles/", ".css"], AnyInLine)
    || Occurs(s, "tailwind.config.js")
    || Occurs(s, "tailwind.config.ts")
  }

  /** `/(utils?\/.*theme.*\.(ts|tsx)|utils?\/.*(http|api|request).*\.(ts|tsx))/i`.
      An unanchored `\.(ts|tsx)` finds a match exactly where `.ts` occurs, so the
      last piece is `.ts`. */
  predicate UtilPath(path: string) {
    var s := Lower(path);
    exists dir, word | dir in ["util/", "utils/"] && word in ["theme", "http", "api", "request"] ::
      Matches(s, [dir, word, ".ts"], AnyInLine)
  }
}
