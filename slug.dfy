/** `slug` of `index.ts`, which turns a goal into the base name of its plan file:
    lower-case it, replace each run of characters outside `[a-z0-9]` with one hyphen,
    remove a hyphen at either end, keep the first 60 characters, and fall back to
    "plan" when nothing is left. */
module Slugs {
  import opened Seqs
  import opened Text

  /** A character the class `[a-z0-9]` matches. */
  predicate IsSlugChar(c: char) {
    'a' <= c <= 'z' || '0' <= c <= '9'
  }

  /** Only letters, digits and hyphens. */
  predicate SlugShaped(r: string) {
    forall i :: 0 <= i < |r| ==> IsSlugChar(r[i]) || r[i] == '-'
  }

  /** No two hyphens side by side. */
  predicate NoDoubleHyphen(r: string) {
    forall i :: 0 <= i < |r| - 1 ==> !(r[i] == '-' && r[i + 1] == '-')
  }

  /** Some character of `s` is a letter or digit once lower-cased. */
  predicate HasLetterOrDigit(s: string) {
    exists i | 0 <= i < |s| :: IsSlugChar(LowerChar(s[i]))
  }

  const MaxLength: nat := 60
  const Fallback: string := "plan"

  /** The length of the run of characters outside `[a-z0-9]` that starts `s`. */
  function OtherRun(s: string): (n: nat)
    ensures n <= |s|
    ensures forall i :: 0 <= i < n ==> !IsSlugChar(s[i])
    ensures n < |s| ==> IsSlugChar(s[n])
  {
    if s != [] && !IsSlugChar(s[0]) then 1 + OtherRun(s[1..]) else 0
  }

  /** `t.replace(/[^a-z0-9]+/g, "-")`: each maximal run of other characters becomes
      a single hyphen, so the result has only letters, digits and lone hyphens, and
      starts with a hyphen exactly when `t` starts with another character. */
  function Collapse(t: string): (r: string)
    ensures |r| <= |t|
    ensures SlugShaped(r) && NoDoubleHyphen(r)
    ensures r == [] <==> t == []
    ensures r != [] ==> (r[0] == '-' <==> !IsSlugChar(t[0]))
    decreases |t|
  {
    if t == [] then []
    else if IsSlugChar(t[0]) then [t[0]] + Collapse(t[1..])
    else "-" + Collapse(t[OtherRun(t)..])
  }

  /** `t.replace(/(^-|-$)/g, "")`: a hyphen at the start and a hyphen at the end are
      removed, and nothing else. */
  function StripEnds(t: string): (r: string)
    ensures r == t || t == "-" + r || t == r + "-" || t == "-" + r + "-"
    ensures SlugShaped(t) ==> SlugShaped(r)
    ensures NoDoubleHyphen(t) ==> NoDoubleHyphen(r) && (r != [] ==> r[0] != '-' && r[|r| - 1] != '-')
  {
    var a := if t != [] && t[0] == '-' then 1 else 0;
    var b := if |t| - a > 0 && t[|t| - 1] == '-' then 1 else 0;
    StripForm(t, a, b);
    StripShape(t, a, b);
    StripHyphens(t, a, b);
    t[a..|t| - b]
  }

  /** `a` and `b` are the hyphens the pattern removes at the start and at the end. */
  predicate StripCut(t: string, a: nat, b: nat) {
    && a == (if t != [] && t[0] == '-' then 1 else 0)
    && b == (if |t| - a > 0 && t[|t| - 1] == '-' then 1 else 0)
  }

  lemma StripForm(t: string, a: nat, b: nat)
    requires StripCut(t, a, b)
    ensures var r := t[a..|t| - b];
      r == t || t == "-" + r || t == r + "-" || t == "-" + r + "-"
  {
    var r := t[a..|t| - b];
    if a == 1 && b == 1 {
      assert t == [t[0]] + r + [t[|t| - 1]];
    } else if a == 1 {
      assert t == [t[0]] + r;
    } else if b == 1 {
      assert t == r + [t[|t| - 1]];
    } else {
      assert r == t;
    }
  }

  lemma StripShape(t: string, a: nat, b: nat)
    requires StripCut(t, a, b)
    ensures SlugShaped(t) ==> SlugShaped(t[a..|t| - b])
  {
    var r := t[a..|t| - b];
    assert forall i :: 0 <= i < |r| ==> r[i] == t[a + i];
  }

  lemma StripHyphens(t: string, a: nat, b: nat)
    requires StripCut(t, a, b)
    ensures var r := t[a..|t| - b];
      NoDoubleHyphen(t) ==> NoDoubleHyphen(r) && (r != [] ==> r[0] != '-' && r[|r| - 1] != '-')
  {
    var r := t[a..|t| - b];
    assert forall i :: 0 <= i < |r| ==> r[i] == t[a + i];
  }

  lemma TakeShape(t: string, n: nat)
    requires SlugShaped(t) && NoDoubleHyphen(t) && (t != [] ==> t[0] != '-')
    ensures SlugShaped(Take(t, n)) && NoDoubleHyphen(Take(t, n))
    ensures Take(t, n) != [] ==> Take(t, n)[0] != '-'
  {
  }

  /** `slug(s)`: a non-empty name of at most 60 letters, digits and lone hyphens that
      does not start with a hyphen. */
  function Slug(s: string): (r: string)
    ensures 1 <= |r| <= MaxLength
    ensures SlugShaped(r) && NoDoubleHyphen(r) && r[0] != '-'
  {
    var t := Take(StripEnds(Collapse(Lower(s))), MaxLength);
    TakeShape(StripEnds(Collapse(Lower(s))), MaxLength);
    if t == [] then Fallback else t
  }

  // ---------------------------------------------------------------------------
  // What the name keeps of the goal.

  /** The letters and digits of a text, in order. */
  function Alnum(t: string): string {
    Filter(t, IsSlugChar)
  }

  /** Collapsing the other characters keeps every letter and digit, in order. */
  lemma {:induction false} CollapseKeepsAlnum(t: string)
    ensures Alnum(Collapse(t)) == Alnum(t)
    decreases |t|
  {
    if t != [] {
      if IsSlugChar(t[0]) {
        CollapseKeepsAlnum(t[1..]);
      } else {
        var n := OtherRun(t);
        CollapseKeepsAlnum(t[n..]);
        assert t == t[..n] + t[n..];
        FilterAppend(t[..n], t[n..], IsSlugChar);
        NoAlnum(t[..n]);
        FilterAppend("-", Collapse(t[n..]), IsSlugChar);
      }
    }
  }

  lemma {:induction false} NoAlnum(t: string)
    requires forall i :: 0 <= i < |t| ==> !IsSlugChar(t[i])
    ensures Alnum(t) == []
    decreases |t|
  {
    if t != [] {
      NoAlnum(t[1..]);
    }
  }

  /** Removing end hyphens keeps every letter and digit. */
  lemma StripKeepsAlnum(t: string)
    ensures Alnum(StripEnds(t)) == Alnum(t)
  {
    var r := StripEnds(t);
    FilterAppend("-", r, IsSlugChar);
    FilterAppend(r, "-", IsSlugChar);
    FilterAppend("-" + r, "-", IsSlugChar);
  }

  /** `p` starts `t`. */
  predicate IsPrefix(p: string, t: string) {
    |p| <= |t| && t[..|p|] == p
  }

  /** The letters and digits of a prefix start the letters and digits. */
  lemma TakeAlnum(t: string, n: nat)
    ensures IsPrefix(Alnum(Take(t, n)), Alnum(t))
  {
    var p := Take(t, n);
    assert t == p + t[|p|..];
    FilterAppend(p, t[|p|..], IsSlugChar);
  }

  lemma HasLetterOrDigitAlnum(s: string)
    ensures HasLetterOrDigit(s) <==> Alnum(Lower(s)) != []
  {
    var l := Lower(s);
    FilterMembers(l, IsSlugChar);
    if HasLetterOrDigit(s) {
      var i :| 0 <= i < |s| && IsSlugChar(LowerChar(s[i]));
      assert l[i] in l;
    }
    if Alnum(l) != [] {
      var c := Alnum(l)[0];
      assert c in l;
      var i :| 0 <= i < |l| && l[i] == c;
      assert IsSlugChar(LowerChar(s[i]));
    }
  }

  /** The text `slug` cuts at 60 characters keeps the letters and digits of the
      lower-cased goal, and starts with one when it has any. */
  lemma StrippedAlnum(s: string)
    ensures Alnum(StripEnds(Collapse(Lower(s)))) == Alnum(Lower(s))
    ensures HasLetterOrDigit(s) <==> StripEnds(Collapse(Lower(s))) != []
    ensures StripEnds(Collapse(Lower(s))) != [] ==> IsSlugChar(StripEnds(Collapse(Lower(s)))[0])
  {
    var c := Collapse(Lower(s));
    var t := StripEnds(c);
    CollapseKeepsAlnum(Lower(s));
    StripKeepsAlnum(c);
    HasLetterOrDigitAlnum(s);
    if t != [] {
      assert IsSlugChar(t[0]);
      FirstAlnum(t);
    } else {
      assert Alnum(t) == [];
    }
  }

  lemma FirstAlnum(t: string)
    requires t != [] && IsSlugChar(t[0])
    ensures Alnum(t) != []
  {
    FilterAppend([t[0]], t[1..], IsSlugChar);
    assert t == [t[0]] + t[1..];
  }

  /** Without a letter or digit the name is "plan". */
  lemma SlugFallback(s: string)
    ensures !HasLetterOrDigit(s) ==> Slug(s) == Fallback
  {
    StrippedAlnum(s);
  }

  /** Otherwise its letters and digits are the first ones of the lower-cased goal, in
      order. */
  lemma SlugKeepsAlnum(s: string)
    ensures HasLetterOrDigit(s) ==> Alnum(Slug(s)) != [] && IsPrefix(Alnum(Slug(s)), Alnum(Lower(s)))
  {
    var t := StripEnds(Collapse(Lower(s)));
    var p := Take(t, MaxLength);
    StrippedAlnum(s);
    TakeAlnum(t, MaxLength);
    if HasLetterOrDigit(s) {
      assert p[0] == t[0];
      FirstAlnum(p);
    }
  }

  /** A goal of at most 60 characters keeps all of its letters and digits. */
  lemma SlugKeepsAllAlnum(s: string)
    requires |s| <= MaxLength
    ensures HasLetterOrDigit(s) ==> Alnum(Slug(s)) == Alnum(Lower(s))
  {
    var t := StripEnds(Collapse(Lower(s)));
    StrippedAlnum(s);
    assert Take(t, MaxLength) == t;
  }

  /** The name ends with a hyphen only when the cut at 60 characters falls just after
      one. */
  lemma SlugTrailingHyphen(s: string)
    ensures Slug(s)[|Slug(s)| - 1] == '-' ==> |Slug(s)| == MaxLength
  {
    var t := StripEnds(Collapse(Lower(s)));
    if |t| <= MaxLength {
      assert Take(t, MaxLength) == t;
    }
  }

  // ---------------------------------------------------------------------------
  // The trailing hyphen, shown on one goal, and the name meant instead.

  /** A text 59 letters long. */
  const Fiftynine: string := seq(59, i => 'a')

  lemma {:induction false} CollapseAlnumPrefix(w: string, x: string)
    requires forall i :: 0 <= i < |w| ==> IsSlugChar(w[i])
    ensures Collapse(w + x) == w + Collapse(x)
    decreases |w|
  {
    if w != [] {
      CollapseAlnumPrefix(w[1..], x);
      CollapseCons(w[0], w[1..] + x);
      assert w + x == [w[0]] + (w[1..] + x);
      assert w + Collapse(x) == [w[0]] + (w[1..] + Collapse(x));
    } else {
      assert w + x == x;
    }
  }

  lemma CollapseCons(c: char, z: string)
    requires IsSlugChar(c)
    ensures Collapse([c] + z) == [c] + Collapse(z)
  {
    var y := [c] + z;
    assert y[0] == c && y[1..] == z;
  }

  lemma LowerAlnum(t: string)
    requires SlugShaped(t)
    ensures Lower(t) == t
  {
  }

  /** The goal of 59 letters, a space and one more letter is named with a trailing
      hyphen, and naming that name again changes it: the hyphen cannot have been
      meant. */
  lemma SlugCanEndWithHyphen()
    ensures Slug(Fiftynine + " b") == Fiftynine + "-"
    ensures Slug(Slug(Fiftynine + " b")) != Slug(Fiftynine + " b")
  {
    SlugOfLongGoal();
    SlugOfCutName();
    assert Fiftynine != Fiftynine + "-";
  }

  lemma SlugOfLongGoal()
    ensures Slug(Fiftynine + " b") == Fiftynine + "-"
  {
    var s := Fiftynine + " b";
    LowerAlnum(Fiftynine);
    assert Lower(s) == s;
    assert Collapse(" b") == "-b" by {
      assert OtherRun(" b") == 1;
      assert " b"[1..] == "b";
    }
    CollapseAlnumPrefix(Fiftynine, " b");
    var t := Fiftynine + "-b";
    assert StripEnds(t) == t by {
      assert t[0] == 'a' && t[|t| - 1] == 'b';
    }
    assert Take(t, MaxLength) == Fiftynine + "-";
  }

  lemma SlugOfCutName()
    ensures Slug(Fiftynine + "-") == Fiftynine
  {
    var n := Fiftynine + "-";
    LowerAlnum(n);
    assert Collapse("-") == "-" by {
      assert OtherRun("-") == 1;
    }
    CollapseAlnumPrefix(Fiftynine, "-");
    assert StripEnds(n) == Fiftynine by {
      assert n[0] == 'a' && n[..|n| - 1] == Fiftynine;
    }
    assert Take(Fiftynine, MaxLength) == Fiftynine;
  }

  /** `slug` with the end hyphens removed after the cut as well: never a hyphen at
      either end. */
  function SlugIntended(s: string): (r: string)
    ensures 1 <= |r| <= MaxLength
    ensures SlugShaped(r) && NoDoubleHyphen(r)
    ensures r[0] != '-' && r[|r| - 1] != '-'
  {
    var t := StripEnds(Take(StripEnds(Collapse(Lower(s))), MaxLength));
    TakeShape(StripEnds(Collapse(Lower(s))), MaxLength);
    if t == [] then Fallback else t
  }

  /** The corrected name differs from `slug` only where `slug` ends with a hyphen,
      and then only by that hyphen. */
  lemma SlugIntendedAgrees(s: string)
    ensures Slug(s)[|Slug(s)| - 1] != '-' ==> SlugIntended(s) == Slug(s)
    ensures Slug(s)[|Slug(s)| - 1] == '-' ==> SlugIntended(s) + "-" == Slug(s)
  {
    var p := Take(StripEnds(Collapse(Lower(s))), MaxLength);
    TakeShape(StripEnds(Collapse(Lower(s))), MaxLength);
    if p != [] && p[|p| - 1] == '-' {
      assert |p| >= 2;
      assert StripEnds(p) == p[..|p| - 1];
    }
  }

  /** A text already shaped like a name collapses to itself. */
  lemma {:induction false} CollapseShaped(r: string)
    requires SlugShaped(r) && NoDoubleHyphen(r)
    ensures Collapse(r) == r
    decreases |r|
  {
    if r != [] {
      CollapseShaped(r[1..]);
      if r[0] == '-' {
        assert OtherRun(r) == 1 by {
          if |r| > 1 {
            assert r[1] != '-';
          }
        }
      }
    }
  }

  lemma StripEndsFixed(t: string)
    requires t != [] && t[0] != '-' && t[|t| - 1] != '-'
    ensures StripEnds(t) == t
  {
  }

  /** A name with no hyphen at either end is its own corrected name. */
  lemma SlugIntendedFixed(r: string)
    requires 1 <= |r| <= MaxLength && SlugShaped(r) && NoDoubleHyphen(r)
    requires r[0] != '-' && r[|r| - 1] != '-'
    ensures SlugIntended(r) == r
  {
    LowerAlnum(r);
    CollapseShaped(r);
    StripEndsFixed(r);
    assert Take(r, MaxLength) == r;
  }

  /** Naming a corrected name again gives it back. */
  lemma SlugIntendedIdempotent(s: string)
    ensures SlugIntended(SlugIntended(s)) == SlugIntended(s)
  {
    SlugIntendedFixed(SlugIntended(s));
  }
}
