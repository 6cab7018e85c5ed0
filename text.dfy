/** The string built-ins the core relies on, as JavaScript defines them, except that
    case conversion is restricted to ASCII letters: `toLowerCase`, the characters
    `\s` matches and `trim` removes, substring search, `split` on one character and
    its inverse `join`. */
module Text {
  import opened Seqs

  /** JavaScript's white space and line terminator characters: what `\s` matches in a
      regular expression and what `String.prototype.trim` removes. The first range is
      tab, line feed, vertical tab, form feed and carriage return; the second is the
      Unicode spaces from en quad to hair space. */
  predicate IsSpace(c: char) {
    || '\t' <= c <= '\r'
    || c == ' ' || c == '\U{00A0}' || c == '\U{1680}'
    || '\U{2000}' <= c <= '\U{200A}'
    || c == '\U{2028}' || c == '\U{2029}' || c == '\U{202F}' || c == '\U{205F}' || c == '\U{3000}'
    || c == '\U{FEFF}'
  }

  /** The characters that `.` in a regular expression does not match. */
  predicate IsLineTerminator(c: char) {
    c == '\n' || c == '\r' || c == '\U{2028}' || c == '\U{2029}'
  }

  predicate AllSpace(s: string) {
    forall i :: 0 <= i < |s| ==> IsSpace(s[i])
  }

  function LowerChar(c: char): char {
    if 'A' <= c <= 'Z' then (c as int - 'A' as int + 'a' as int) as char else c
  }

  /** `s.toLowerCase()`, for ASCII letters. */
  function Lower(s: string): string {
    seq(|s|, i requires 0 <= i < |s| => LowerChar(s[i]))
  }

  lemma LowerIdempotent(s: string)
    ensures Lower(Lower(s)) == Lower(s)
  {
  }

  /** `lit` occurs in `s` at position `i`. */
  predicate StartsAt(s: string, i: int, lit: string) {
    0 <= i && i + |lit| <= |s| && s[i..i + |lit|] == lit
  }

  /** `lit` is a substring of `s`: what a regular expression made of the plain
      literal `lit` finds with `test`. */
  predicate Occurs(s: string, lit: string) {
    exists i | 0 <= i <= |s| :: StartsAt(s, i, lit)
  }

  /** `needle` occurs in `hay` when letter case is ignored, as under the `i` flag. */
  predicate OccursIgnoringCase(hay: string, needle: string) {
    Occurs(Lower(hay), Lower(needle))
  }

  /** A literal occurs only in a text that holds each of its characters. */
  lemma OccursChar(s: string, lit: string, c: char)
    requires Occurs(s, lit) && c in lit
    ensures c in s
  {
    var i :| 0 <= i <= |s| && StartsAt(s, i, lit);
    var k :| 0 <= k < |lit| && lit[k] == c;
    assert s[i + k] == c;
  }

  /** A literal holding a character that the text lacks does not occur in it. */
  lemma AbsentCharBlocks(s: string, lit: string, c: char)
    requires c in lit && c !in s
    ensures !Occurs(s, lit)
  {
    if Occurs(s, lit) {
      OccursChar(s, lit, c);
    }
  }

  /** The length of the longest all-white-space prefix. */
  function LeadingSpaces(s: string): (n: nat)
    ensures n <= |s|
    ensures n < |s| ==> !IsSpace(s[n])
  {
    if s != [] && IsSpace(s[0]) then 1 + LeadingSpaces(s[1..]) else 0
  }

  /** The leading white space is white space throughout. */
  lemma {:induction false} LeadingSpacesAll(s: string)
    ensures AllSpace(s[..LeadingSpaces(s)])
    decreases |s|
  {
    if s != [] && IsSpace(s[0]) {
      LeadingSpacesAll(s[1..]);
      assert s[..LeadingSpaces(s)] == [s[0]] + s[1..][..LeadingSpaces(s[1..])];
    }
  }

  /** The length of the longest all-white-space suffix. */
  function TrailingSpaces(s: string): (n: nat)
    ensures n <= |s|
    ensures n < |s| ==> !IsSpace(s[|s| - n - 1])
  {
    if s != [] && IsSpace(s[|s| - 1]) then 1 + TrailingSpaces(s[..|s| - 1]) else 0
  }

  /** The trailing white space is white space throughout. */
  lemma {:induction false} TrailingSpacesAll(s: string)
    ensures AllSpace(s[|s| - TrailingSpaces(s)..])
    decreases |s|
  {
    if s != [] && IsSpace(s[|s| - 1]) {
      var p := s[..|s| - 1];
      var n := TrailingSpaces(p);
      TrailingSpacesAll(p);
      forall k | |s| - 1 - n <= k < |s|
        ensures IsSpace(s[k])
      {
        if k < |s| - 1 {
          assert s[k] == p[|p| - n..][k - (|s| - 1 - n)];
        }
      }
    }
  }

  /** `s.trim()`: `s` without the white space at either end. The result is empty
      exactly when `s` is all white space, and otherwise starts and ends with a
      character that is not. */
  function Trim(s: string): (r: string)
    ensures |r| <= |s|
    ensures r != [] ==> !IsSpace(r[0]) && !IsSpace(r[|r| - 1])
    ensures r == [] <==> AllSpace(s)
  {
    var a := LeadingSpaces(s);
    var u := s[a..];
    var r := u[..|u| - TrailingSpaces(u)];
    TrimEnds(s, a, u, r);
    TrimEmpty(s, a, u, r);
    r
  }

  lemma TrimEnds(s: string, a: nat, u: string, r: string)
    requires a == LeadingSpaces(s) && u == s[a..] && r == u[..|u| - TrailingSpaces(u)]
    ensures r != [] ==> !IsSpace(r[0]) && !IsSpace(r[|r| - 1])
  {
    if r != [] {
      assert r[0] == s[a];
    }
  }

  lemma TrimEmpty(s: string, a: nat, u: string, r: string)
    requires a == LeadingSpaces(s) && u == s[a..] && r == u[..|u| - TrailingSpaces(u)]
    ensures r == [] <==> AllSpace(s)
  {
    if r == [] {
      if a < |s| {
        TrailingSpacesAll(u);
      }
      LeadingSpacesAll(s);
      assert s[..a] == s;
    } else {
      assert !IsSpace(s[a]);
    }
  }

  /** `s` is `Trim(s)` with white space around it: the leading white space before
      it and only white space after it. */
  lemma TrimInfix(s: string)
    ensures var a, r := LeadingSpaces(s), Trim(s);
      && a + |r| <= |s|
      && s == s[..a] + r + s[a + |r|..]
      && AllSpace(s[a + |r|..])
  {
    var a := LeadingSpaces(s);
    var u := s[a..];
    var n := |u| - TrailingSpaces(u);
    assert Trim(s) == u[..n];
    SliceAround(s, a, n);
    TrailingSpacesAll(u);
  }

  lemma SliceAround(s: string, a: nat, n: nat)
    requires a + n <= |s|
    ensures s == s[..a] + s[a..][..n] + s[a + n..]
    ensures s[a + n..] == s[a..][n..]
  {
    assert s[a..] == s[a..][..n] + s[a + n..];
  }

  /** Trimming only removes characters. */
  lemma TrimChars(s: string, c: char)
    requires c in Trim(s)
    ensures c in s
  {
    var a := LeadingSpaces(s);
    var r := Trim(s);
    var k :| 0 <= k < |r| && r[k] == c;
    assert s[a + k] == c;
  }

  /** Trimming twice trims nothing more. */
  lemma TrimIdempotent(s: string)
    ensures Trim(Trim(s)) == Trim(s)
  {
    var r := Trim(s);
    if r != [] {
      assert LeadingSpaces(r) == 0;
      assert TrailingSpaces(r) == 0;
    }
  }

  /** Dropping a trailing white-space character before trimming changes nothing. */
  lemma TrimDropLastSpace(s: string)
    requires s != [] && IsSpace(s[|s| - 1])
    ensures Trim(s[..|s| - 1]) == Trim(s)
  {
    var s' := s[..|s| - 1];
    LeadingSpacesOfLonger(s', s);
    if LeadingSpaces(s) == |s| {
      TrimDropLastAllSpace(s, s');
    } else {
      TrimDropLastInner(s, s', LeadingSpaces(s));
    }
  }

  /** Text that is white space throughout trims to nothing, with or without its
      last character. */
  lemma TrimDropLastAllSpace(s: string, s': string)
    requires s != [] && s' == s[..|s| - 1]
    requires LeadingSpaces(s) == |s| && LeadingSpaces(s') == |s'|
    ensures Trim(s') == [] && Trim(s) == []
  {
  }

  /** With `a` leading white-space characters and something after them, dropping
      the last (white-space) character leaves the trimmed middle as it is. */
  lemma TrimDropLastInner(s: string, s': string, a: nat)
    requires s != [] && IsSpace(s[|s| - 1]) && s' == s[..|s| - 1]
    requires a == LeadingSpaces(s) == LeadingSpaces(s') && a < |s|
    ensures Trim(s') == Trim(s)
  {
    var t, t' := s[a..], s'[a..];
    assert t' == t[..|t| - 1];
    TrailingSpacesDropLast(t, t');
    TrimAfter(s, a, t);
    TrimAfter(s', a, t');
  }

  /** `Trim(s)` is the text after the leading white space, `t`, without its
      trailing white space. */
  lemma TrimAfter(s: string, a: nat, t: string)
    requires a == LeadingSpaces(s) && t == s[a..]
    ensures Trim(s) == t[..|t| - TrailingSpaces(t)]
  {
  }

  /** Dropping a trailing white-space character shortens the trailing white space by one. */
  lemma TrailingSpacesDropLast(t: string, t': string)
    requires t != [] && IsSpace(t[|t| - 1]) && t' == t[..|t| - 1]
    ensures TrailingSpaces(t) == 1 + TrailingSpaces(t')
    ensures t'[..|t'| - TrailingSpaces(t')] == t[..|t| - TrailingSpaces(t)]
  {
    var n := TrailingSpaces(t');
    assert TrailingSpaces(t) == 1 + n;
    var k := |t'| - n;
    forall j | 0 <= j < k
      ensures t'[..k][j] == t[..k][j]
    {
      assert t'[j] == t[j];
    }
    assert t'[..k] == t[..k];
  }

  lemma {:induction false} LeadingSpacesOfLonger(p: string, s: string)
    requires |p| <= |s| && p == s[..|p|]
    ensures LeadingSpaces(p) == if LeadingSpaces(s) < |p| then LeadingSpaces(s) else |p|
    decreases |p|
  {
    if p != [] && IsSpace(p[0]) {
      assert p[1..] == s[1..][..|p| - 1];
      LeadingSpacesOfLonger(p[1..], s[1..]);
    }
  }

  /** `parts.join(sep)`. */
  function Join(parts: seq<string>, sep: char): string {
    if parts == [] then []
    else if |parts| == 1 then parts[0]
    else parts[0] + [sep] + Join(parts[1..], sep)
  }

  /** `s.split(sep)` for a one-character separator: the pieces between successive
      separators. */
  function Split(s: string, sep: char): (parts: seq<string>)
    ensures |parts| >= 1
    decreases |s|
  {
    if sep !in s then [s]
    else
      var i := IndexOf(s, sep);
      [s[..i]] + Split(s[i + 1..], sep)
  }

  /** No piece holds the separator. */
  lemma {:induction false} SplitPieces(s: string, sep: char)
    ensures forall p :: p in Split(s, sep) ==> sep !in p
    decreases |s|
  {
    if sep in s {
      var i := IndexOf(s, sep);
      SplitPieces(s[i + 1..], sep);
      assert sep !in s[..i];
    }
  }

  /** Joining the pieces with the separator gives back the text. */
  lemma {:induction false} JoinSplit(s: string, sep: char)
    ensures Join(Split(s, sep), sep) == s
    decreases |s|
  {
    if sep in s {
      var i := IndexOf(s, sep);
      JoinCons(s[..i], Split(s[i + 1..], sep), sep);
      JoinSplit(s[i + 1..], sep);
      Around(s, i);
    }
  }

  lemma JoinCons(p: string, rest: seq<string>, sep: char)
    requires |rest| >= 1
    ensures Join([p] + rest, sep) == p + [sep] + Join(rest, sep)
  {
    var parts := [p] + rest;
    assert parts[0] == p && parts[1..] == rest;
  }

  /** Splitting undoes joining pieces that do not hold the separator. */
  lemma {:induction false} SplitJoin(parts: seq<string>, sep: char)
    requires |parts| >= 1
    requires forall p :: p in parts ==> sep !in p
    ensures Split(Join(parts, sep), sep) == parts
    decreases |parts|
  {
    if |parts| > 1 {
      var s := Join(parts, sep);
      var p := parts[0];
      assert s == p + [sep] + Join(parts[1..], sep);
      assert sep in s by { assert s[|p|] == sep; }
      var i := IndexOf(s, sep);
      assert sep !in p by { assert p in parts; }
      assert i == |p| by {
        assert forall k :: 0 <= k < |p| ==> s[k] == p[k];
        assert s[|p|] == sep;
      }
      assert s[..i] == p;
      assert s[i + 1..] == Join(parts[1..], sep);
      SplitJoin(parts[1..], sep);
    }
  }

  /** `s.split(/\r?\n/)`: the lines of `s`, each without the line feed that ends it
      and without a carriage return just before that line feed. */
  function SplitLines(s: string): (lines: seq<string>)
    ensures |lines| == |Split(s, '\n')|
  {
    var parts := Split(s, '\n');
    seq(|parts|, i requires 0 <= i < |parts| =>
      var p := parts[i];
      if i < |parts| - 1 && p != [] && p[|p| - 1] == '\r' then p[..|p| - 1] else p)
  }

  /** Once trimmed, the lines of `split(/\r?\n/)` are the pieces of `split("\n")`. */
  lemma SplitLinesTrimmed(s: string)
    ensures forall i :: 0 <= i < |SplitLines(s)| ==> Trim(SplitLines(s)[i]) == Trim(Split(s, '\n')[i])
  {
    forall i | 0 <= i < |SplitLines(s)|
      ensures Trim(SplitLines(s)[i]) == Trim(Split(s, '\n')[i])
    {
      LineTrimmed(s, i);
    }
  }

  /** Line `i` of `split(/\r?\n/)` trims like piece `i` of `split("\n")`: at most a
      carriage return before the line feed tells them apart. */
  lemma LineTrimmed(s: string, i: nat)
    requires i < |Split(s, '\n')|
    ensures Trim(SplitLines(s)[i]) == Trim(Split(s, '\n')[i])
  {
    var parts := Split(s, '\n');
    var p := parts[i];
    if i < |parts| - 1 && p != [] && p[|p| - 1] == '\r' {
      TrimDropCarriageReturn(p, SplitLines(s)[i]);
    } else {
      assert SplitLines(s)[i] == p;
    }
  }

  /** A carriage return is white space, so dropping it before trimming changes nothing. */
  lemma TrimDropCarriageReturn(p: string, l: string)
    requires p != [] && p[|p| - 1] == '\r' && l == p[..|p| - 1]
    ensures Trim(l) == Trim(p)
  {
    TrimDropLastSpace(p);
  }
}
