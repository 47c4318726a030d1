/** The user-story parser of the completeness pipeline: it finds "As a …
    I want … so that …" in raw text, drops list and note interruptions and
    decides where the sentence ends. */
module UserStories {
  import opened Wrappers
  import opened Strings

  const Ellipsis: char := '\U{2026}'

  /** Appended to the kept text to show that something was cut: " […]". */
  const CutMarker: string := [' ', '[', '\U{2026}', ']']

  const RoleMessage: string :=
    "A role could not be found. "
    + "Please make sure the role of the user story is declared using the syntax \"As a(n) [role]\"."
  const GoalMessage: string :=
    "A goal could not be found. "
    + "Please make sure the goal of the user story is declared after the role using the syntax \"I want [goal]\"."

  /** The parsed parts of a user story. */
  datatype UserStory = UserStory(
    role: string,
    goal: string,
    reason: string,
    containsListOrNote: bool,
    wasCutAtListOrNote: bool)

  /* ---------------------------------------------------------------------
     Runs of dots
     --------------------------------------------------------------------- */

  /** Length of the run of '.' at the start of `s`. */
  function DotRun(s: string): (r: nat)
    ensures r <= |s|
    ensures forall i :: 0 <= i < r ==> s[i] == '.'
    ensures r < |s| ==> s[r] != '.'
  {
    if s == [] || s[0] != '.' then 0 else 1 + DotRun(s[1..])
  }

  /** The period and the ellipsis: the characters the replacement trades
      for one another. */
  const Dots: set<char> := {'.', Ellipsis}

  /** Three consecutive periods start at `i`. */
  predicate TripleDotAt(s: string, i: int) {
    0 <= i < |s| - 2 && s[i] == '.' && s[i + 1] == '.' && s[i + 2] == '.'
  }

  /** No three consecutive periods. */
  predicate NoTripleDot(s: string) {
    forall i :: 0 <= i < |s| ==> !TripleDotAt(s, i)
  }

  /** `s.replaceAll("\\.{3,}", "…")`: each maximal run of three or more
      periods, leftmost first, becomes one ellipsis character. */
  function ReplaceDotRuns(s: string): (r: string)
    ensures NoTripleDot(r)
    ensures Without(r, Dots) == Without(s, Dots)
    ensures DotRun(r) == (if DotRun(s) >= 3 then 0 else DotRun(s))
    ensures |r| <= |s|
    decreases |s|
  {
    if s == [] then []
    else if DotRun(s) >= 3 then
      var tail := ReplaceDotRuns(s[DotRun(s)..]);
      assert ([Ellipsis] + tail)[1..] == tail;
      NoTripleDotCons(Ellipsis, tail);
      WithoutSkip(s, DotRun(s), Dots);
      [Ellipsis] + tail
    else
      var tail := ReplaceDotRuns(s[1..]);
      assert ([s[0]] + tail)[1..] == tail;
      NoTripleDotCons(s[0], tail);
      [s[0]] + tail
  }

  /** Putting a character in front of text without three periods in a row
      creates such a run only if the text starts with two periods. */
  lemma NoTripleDotCons(c: char, t: string)
    requires NoTripleDot(t)
    requires c == '.' ==> DotRun(t) < 2
    ensures NoTripleDot([c] + t)
  {
    var r := [c] + t;
    forall i | 0 <= i < |r| ensures !TripleDotAt(r, i) {
      if i == 0 && |r| > 2 {
        assert r[1] == t[0] && r[2] == t[1];
      } else if 1 <= i < |r| - 2 {
        assert !TripleDotAt(t, i - 1);
        assert r[i] == t[i - 1] && r[i + 1] == t[i] && r[i + 2] == t[i + 1];
      }
    }
  }

  /** Text without a run of three periods is left untouched. */
  lemma {:induction false} ReplaceDotRunsIdentity(s: string)
    requires NoTripleDot(s)
    ensures ReplaceDotRuns(s) == s
    decreases |s|
  {
    if s != [] {
      assert !TripleDotAt(s, 0);
      assert DotRun(s) < 3;
      var t := s[1..];
      assert NoTripleDot(t) by {
        forall i ensures !TripleDotAt(t, i) {
          assert !TripleDotAt(s, i + 1);
          if 0 <= i < |t| - 2 {
            assert t[i] == s[i + 1] && t[i + 1] == s[i + 2] && t[i + 2] == s[i + 3];
          }
        }
      }
      ReplaceDotRunsIdentity(t);
    }
  }

  /** A run of periods ending at the end of `a` runs on into `b`; one
      ending inside `a` stays there. */
  lemma {:induction false} DotRunConcat(a: string, b: string)
    ensures DotRun(a) < |a| ==> DotRun(a + b) == DotRun(a)
    ensures DotRun(a) == |a| ==> DotRun(a + b) == |a| + DotRun(b)
  {
    if a == [] {
      assert a + b == b;
    } else {
      assert (a + b)[0] == a[0];
      if a[0] == '.' {
        assert (a + b)[1..] == a[1..] + b;
        DotRunConcat(a[1..], b);
      }
    }
  }

  /** One step of the replacement: a leading run of three or more periods
      becomes an ellipsis, any other first character is kept. */
  lemma DotStep(s: string)
    requires s != []
    ensures DotRun(s) >= 3 ==> ReplaceDotRuns(s) == [Ellipsis] + ReplaceDotRuns(s[DotRun(s)..])
    ensures DotRun(s) < 3 ==> ReplaceDotRuns(s) == [s[0]] + ReplaceDotRuns(s[1..])
  {
  }

  /** The replacement works piece by piece as long as the cut does not fall
      inside a run of periods. */
  lemma {:induction false} ReplaceDotRunsConcat(a: string, b: string)
    requires a == [] || b == [] || a[|a| - 1] != '.' || b[0] != '.'
    ensures ReplaceDotRuns(a + b) == ReplaceDotRuns(a) + ReplaceDotRuns(b)
    decreases |a|
  {
    if a == [] {
      assert a + b == b;
    } else {
      var k := DotRun(a);
      var rest := HeadRest(a);
      if rest != [] {
        assert rest[|rest| - 1] == a[|a| - 1];
      }
      if k == |a| && k >= 3 {
        assert rest == [];
        assert b == [] || b[0] != '.';
        assert DotRun(b) == 0;
      }
      ReplaceDotRunsConcat(rest, b);
      DotRunConcat(a, b);
      ReplaceDotRunsHead(a, b);
    }
  }

  /** What the replacement puts first for a non-empty `a`. */
  function HeadOut(a: string): char
    requires a != []
  {
    if DotRun(a) >= 3 then Ellipsis else a[0]
  }

  /** Where the replacement resumes after the head of a non-empty `a`. */
  function HeadRest(a: string): string
    requires a != []
  {
    if DotRun(a) >= 3 then a[DotRun(a)..] else a[1..]
  }

  /** The step of the replacement at the head of `a` is the same with `b`
      after it. */
  lemma ReplaceDotRunsHead(a: string, b: string)
    requires a != []
    requires DotRun(a) < |a| ==> DotRun(a + b) == DotRun(a)
    requires DotRun(a) == |a| ==> DotRun(a + b) == |a|
    requires ReplaceDotRuns(HeadRest(a) + b) == ReplaceDotRuns(HeadRest(a)) + ReplaceDotRuns(b)
    ensures ReplaceDotRuns(a + b) == ReplaceDotRuns(a) + ReplaceDotRuns(b)
  {
    HeadStepConcat(a, b);
    HeadStep(a);
    ConsRegroup(ReplaceDotRuns(a + b), ReplaceDotRuns(a), HeadOut(a), ReplaceDotRuns(HeadRest(a)), ReplaceDotRuns(b));
  }

  /** The step at the head of `a + b`. */
  lemma HeadStepConcat(a: string, b: string)
    requires a != []
    requires DotRun(a) < |a| ==> DotRun(a + b) == DotRun(a)
    requires DotRun(a) == |a| ==> DotRun(a + b) == |a|
    ensures ReplaceDotRuns(a + b) == [HeadOut(a)] + ReplaceDotRuns(HeadRest(a) + b)
  {
    if DotRun(a) >= 3 {
      RunStepConcat(a, b, a[DotRun(a)..]);
    } else {
      PlainStepConcat(a, b, a[1..]);
    }
  }

  /** A run of three or more periods at the head of `a + b`. */
  lemma RunStepConcat(a: string, b: string, rest: string)
    requires a != [] && DotRun(a) >= 3 && rest == a[DotRun(a)..]
    requires DotRun(a + b) == DotRun(a)
    ensures ReplaceDotRuns(a + b) == [Ellipsis] + ReplaceDotRuns(rest + b)
  {
    var ab, k := a + b, DotRun(a);
    assert ab[k..] == rest + b;
    DotStep(ab);
  }

  /** Any other character at the head of `a + b`. */
  lemma PlainStepConcat(a: string, b: string, rest: string)
    requires a != [] && DotRun(a) < 3 && rest == a[1..]
    requires DotRun(a + b) == DotRun(a)
    ensures ReplaceDotRuns(a + b) == [a[0]] + ReplaceDotRuns(rest + b)
  {
    var ab := a + b;
    assert ab[0] == a[0] && ab[1..] == rest + b;
    assert ReplaceDotRuns(ab) == [ab[0]] + ReplaceDotRuns(ab[1..]);
  }

  /** The step at the head of `a`. */
  lemma HeadStep(a: string)
    requires a != []
    ensures ReplaceDotRuns(a) == [HeadOut(a)] + ReplaceDotRuns(HeadRest(a))
  {
    DotStep(a);
  }

  /** A run of three or more periods on its own becomes one ellipsis. */
  lemma DotRunsToEllipsis(w: string)
    requires |w| >= 3 && forall i :: 0 <= i < |w| ==> w[i] == '.'
    ensures ReplaceDotRuns(w) == [Ellipsis]
  {
    assert DotRun(w) == |w| by { DotRunAll(w); }
    assert w[|w|..] == [];
  }

  /** A string of periods only is one run. */
  lemma {:induction false} DotRunAll(w: string)
    requires forall i :: 0 <= i < |w| ==> w[i] == '.'
    ensures DotRun(w) == |w|
  {
    if w != [] {
      DotRunAll(w[1..]);
    }
  }

  /* ---------------------------------------------------------------------
     Lists and notes
     --------------------------------------------------------------------- */

  /** The pattern `\R\s*(\*|-|\\\\)\s` matches at `p`: a line break, any
      run of `\s`, then '*', '-' or two backslashes, then one `\s`. The
      marker characters are not `\s`, so the greedy run never has to give
      characters back. */
  predicate ListMarkerAt(s: string, p: int) {
    0 <= p < |s| && IsLineBreak(s[p]) &&
    var q := p + 1 + SpaceRun(s[p + 1..]);
    (q + 1 < |s| && (s[q] == '*' || s[q] == '-') && IsRegexSpace(s[q + 1]))
    || (q + 2 < |s| && s[q] == '\\' && s[q + 1] == '\\' && IsRegexSpace(s[q + 2]))
  }

  function ScanListOrNote(s: string, from: nat): (r: nat)
    requires from <= |s|
    ensures from <= r <= |s|
    ensures r < |s| ==> ListMarkerAt(s, r)
    ensures forall p :: from <= p < r ==> !ListMarkerAt(s, p)
    decreases |s| - from
  {
    if from == |s| then |s|
    else if ListMarkerAt(s, from) then from
    else ScanListOrNote(s, from + 1)
  }

  /** `indexOfListOrNote`: the start of the first list or note, or the
      length of the string when there is none. */
  function IndexOfListOrNote(s: string): (r: nat)
    ensures r <= |s|
    ensures r < |s| <==> exists p :: ListMarkerAt(s, p)
    ensures r < |s| ==> ListMarkerAt(s, r)
    ensures forall p :: 0 <= p < r ==> !ListMarkerAt(s, p)
  {
    ScanListOrNote(s, 0)
  }

  /* ---------------------------------------------------------------------
     Sentence ends
     --------------------------------------------------------------------- */

  /** The abbreviations whose final period never ends a sentence. */
  const Abbreviations: seq<string> :=
    ["e.g.", "etc.", "approx.", "i.e.", "cf.", "encl.", "p.a.", "Dr.", "Prof.", "no."]

  /** `x` ends with one of `abbreviations` (a case-sensitive suffix test). */
  predicate EndsWithAny(x: string, abbreviations: seq<string>) {
    |abbreviations| > 0 && (EndsWith(x, abbreviations[0]) || EndsWithAny(x, abbreviations[1..]))
  }

  lemma EndsWithAnyIff(x: string, abbreviations: seq<string>)
    ensures EndsWithAny(x, abbreviations) <==> exists a :: a in abbreviations && EndsWith(x, a)
  {
    if |abbreviations| > 0 {
      EndsWithAnyIff(x, abbreviations[1..]);
      if exists a :: a in abbreviations && EndsWith(x, a) {
        var a :| a in abbreviations && EndsWith(x, a);
        if a != abbreviations[0] {
          assert a in abbreviations[1..];
        }
      }
    }
  }

  /** `isSentenceEnding`: the period at `p` is followed by whitespace and
      does not close one of the abbreviations. When no character follows,
      `charAt` throws and the handler answers true. */
  predicate IsSentenceEnding(s: string, p: int)
    ensures !(0 <= p + 1 < |s|) ==> IsSentenceEnding(s, p)
    ensures 0 <= p + 1 < |s| ==> (IsSentenceEnding(s, p) <==>
      IsJavaWhitespace(s[p + 1]) && forall a :: a in Abbreviations ==> !EndsWith(s[..p + 1], a))
  {
    if 0 <= p + 1 < |s| then
      EndsWithAnyIff(s[..p + 1], Abbreviations);
      IsJavaWhitespace(s[p + 1]) && !EndsWithAny(s[..p + 1], Abbreviations)
    else true
  }

  /** A period at `q` that passes `test`. */
  predicate PeriodPasses(s: string, q: int, test: (string, int) -> bool) {
    0 <= q < |s| && s[q] == '.' && test(s, q)
  }

  /** A sentence-ending period sits at `q`. */
  predicate EndsSentenceAt(s: string, q: int) {
    PeriodPasses(s, q, IsSentenceEnding)
  }

  /** The result of `findSentencePeriodOrEndOfString`: the end index, and
      whether it came from a period (rather than the end of the text). */
  datatype PeriodSearch = PeriodSearch(end: nat, found: bool)

  /** `s.indexOf(".", from)`, read character by character: the first
      period from `from` on, or -1. */
  function DotFrom(s: string, from: nat): (p: int)
    ensures p == -1 || (from <= p < |s| && s[p] == '.')
    ensures forall q :: from <= q < |s| && (p == -1 || q < p) ==> s[q] != '.'
    decreases |s| - from
  {
    if from >= |s| then -1 else if s[from] == '.' then from else DotFrom(s, from + 1)
  }

  /** The character scan is the substring search for ".". */
  lemma DotFromIsIndexOf(s: string, from: nat)
    ensures DotFrom(s, from) == IndexOfFrom(s, ".", from)
  {
    var p := DotFrom(s, from);
    var r := IndexOfFrom(s, ".", from);
    if p != -1 {
      DotOccurrence(s, p);
    }
    if r != -1 {
      DotOccurrence(s, r);
    }
  }

  lemma DotOccurrence(s: string, q: int)
    ensures OccursAt(".", s, q) <==> 0 <= q < |s| && s[q] == '.'
  {
    if 0 <= q < |s| && s[q] == '.' {
      assert s[q..q + 1] == [s[q]];
    }
  }

  /** The loop of `findSentencePeriodOrEndOfString` for any test of a
      period: one past the first period from `from` on that passes it,
      otherwise the end of the text. */
  function FindPeriodWhere(s: string, from: nat, test: (string, int) -> bool): (r: PeriodSearch)
    ensures r.end <= |s|
    ensures r.found ==> from < r.end
    ensures !r.found ==> r.end == |s|
    decreases |s| - from
  {
    var p := DotFrom(s, from);
    if p == -1 then PeriodSearch(|s|, false)
    else if test(s, p) then PeriodSearch(p + 1, true)
    else FindPeriodWhere(s, p + 1, test)
  }

  /** The search finds a passing period exactly when there is one from
      `from` on, and then the first. */
  lemma {:induction false} FindPeriodWhereSpec(s: string, from: nat, test: (string, int) -> bool)
    ensures var r := FindPeriodWhere(s, from, test);
      (r.found <==> exists q :: from <= q && PeriodPasses(s, q, test))
      && (r.found ==> PeriodPasses(s, r.end - 1, test))
      && forall q :: from <= q < r.end - 1 ==> !PeriodPasses(s, q, test)
    decreases |s| - from
  {
    var p := DotFrom(s, from);
    if p == -1 {
      assert forall q :: from <= q ==> !PeriodPasses(s, q, test);
    } else if test(s, p) {
      assert PeriodPasses(s, p, test);
    } else {
      FindPeriodWhereSpec(s, p + 1, test);
      assert !PeriodPasses(s, p, test);
    }
  }

  /** `findSentencePeriodOrEndOfString`, searching for periods from index
      `from` on. */
  function FindSentencePeriodFrom(s: string, from: nat): (r: PeriodSearch)
    ensures r.end <= |s|
    ensures r.found ==> from < r.end
    ensures !r.found ==> r.end == |s|
  {
    FindPeriodWhere(s, from, IsSentenceEnding)
  }

  /** The search finds a sentence-ending period exactly when there is one
      from `from` on, and then the first. */
  lemma FindSentencePeriodSpec(s: string, from: nat)
    ensures var r := FindSentencePeriodFrom(s, from);
      (r.found <==> exists q :: from <= q && EndsSentenceAt(s, q))
      && (r.found ==> EndsSentenceAt(s, r.end - 1))
      && forall q :: from <= q < r.end - 1 ==> !EndsSentenceAt(s, q)
  {
    FindPeriodWhereSpec(s, from, IsSentenceEnding);
    var r := FindSentencePeriodFrom(s, from);
    if r.found {
      var q :| from <= q && PeriodPasses(s, q, IsSentenceEnding);
      assert EndsSentenceAt(s, q);
    } else {
      forall q | from <= q ensures !EndsSentenceAt(s, q) {
        assert !PeriodPasses(s, q, IsSentenceEnding);
      }
    }
  }

  /* ---------------------------------------------------------------------
     Parsing
     --------------------------------------------------------------------- */

  /** `replaceAll("\\*", "").replaceAll("\\s+", " ")`, applied to every part. */
  function Sanitize(x: string): (r: string)
    ensures '*' !in r
    ensures NoDoubleSpace(r) && OnlyPlainSpaces(r)
    ensures Without(r, RegexSpaces) == Without(x, RegexSpaces + {'*'})
    ensures |x| > 0 && x[0] != '*' && !IsRegexSpace(x[0]) ==> |r| > 0 && r[0] == x[0]
  {
    var y := RemoveChar(x, '*');
    RemoveCharIsWithout(x, '*');
    WithoutTwice(x, {'*'}, RegexSpaces);
    assert {'*'} + RegexSpaces == RegexSpaces + {'*'};
    CollapseSpaces(y)
  }

  /** Which length the cut index is compared with before " […]" is
      appended: the dot-replaced input (as the parser does it) or the text
      that was actually searched for a list or note. */
  datatype CutRule = AgainstInput | AgainstKeptText

  /** Where the role starts: the first case-insensitive "as a". */
  function RoleIndex(t: string): int {
    IndexOf(ToUpper(t), "AS A")
  }

  /** The text from the role on, cut before the first list or note. */
  function Kept(t: string): (k: string)
    requires RoleIndex(t) >= 0
    ensures StartsWith(t[RoleIndex(t)..], k)
  {
    var rest := t[RoleIndex(t)..];
    rest[..IndexOfListOrNote(rest)]
  }

  /** Whether " […]" is appended to the kept text. */
  predicate MarkCut(t: string, rule: CutRule)
    requires RoleIndex(t) >= 0
  {
    var rest := t[RoleIndex(t)..];
    var cut := IndexOfListOrNote(rest);
    match rule
    case AgainstInput => cut < |t|
    case AgainstKeptText => cut < |rest|
  }

  /** The text the goal and reason are searched in. */
  function Shortened(t: string, rule: CutRule): string
    requires RoleIndex(t) >= 0
  {
    Kept(t) + (if MarkCut(t, rule) then CutMarker else [])
  }

  /** Where "so that" is searched for and where the sentence ends, as seen
      from the "I want" at `w`: neither can fall at `w` itself. */
  lemma GoalBounds(s: string, w: nat)
    requires 0 < w && OccursAt("I WANT", ToUpper(s), w)
    requires Upper(s[0]) == 'A'
    ensures s[0] != '*' && !IsRegexSpace(s[0])
    ensures Upper(s[w]) == 'I' && s[w] != '*' && !IsRegexSpace(s[w])
    ensures var so := IndexOfFrom(ToUpper(s), "SO THAT", w); so == -1 || w < so
    ensures w < FindSentencePeriodFrom(s, w + 1).end
  {
    GoalStart(s, w);
    SoThatAfterGoal(s, w);
    var period := FindSentencePeriodFrom(s, w + 1);
  }

  /** The role and the goal start with letters. */
  lemma GoalStart(s: string, w: nat)
    requires 0 < w && OccursAt("I WANT", ToUpper(s), w)
    requires Upper(s[0]) == 'A'
    ensures s[0] != '*' && !IsRegexSpace(s[0])
    ensures Upper(s[w]) == 'I' && s[w] != '*' && !IsRegexSpace(s[w])
  {
    var u := ToUpper(s);
    assert u[w..w + 6][0] == u[w] == Upper(s[w]);
    LetterIsNotSpace(s[0]);
    LetterIsNotSpace(s[w]);
  }

  /** "so that" is not found at the "I want" itself. */
  lemma SoThatAfterGoal(s: string, w: nat)
    requires OccursAt("I WANT", ToUpper(s), w)
    ensures var so := IndexOfFrom(ToUpper(s), "SO THAT", w); so == -1 || w < so
  {
    var u := ToUpper(s);
    var so := IndexOfFrom(u, "SO THAT", w);
    if so != -1 {
      assert u[so..so + 7][0] == u[so];
      assert u[w..w + 6][0] == u[w];
    }
  }

  /** Role, goal and reason of the shortened text `s`, whose "I want"
      starts at `w`; `marker` tells whether a list or note was found. */
  function Assemble(s: string, w: nat, marker: bool): (us: UserStory)
    requires 0 < w && OccursAt("I WANT", ToUpper(s), w)
    requires Upper(s[0]) == 'A'
    ensures '*' !in us.role && '*' !in us.goal && '*' !in us.reason
    ensures NoDoubleSpace(us.goal) && OnlyPlainSpaces(us.goal)
    ensures |us.role| > 0 && Upper(us.role[0]) == 'A'
    ensures |us.goal| > 0 && Upper(us.goal[0]) == 'I'
    ensures us.containsListOrNote == marker
  {
    var so := IndexOfFrom(ToUpper(s), "SO THAT", w);
    var period := FindSentencePeriodFrom(s, w + 1);
    GoalBounds(s, w);
    var hasReason := so != -1 && so <= period.end;
    var goalEnd := if hasReason then so else period.end;
    assert s[..w][0] == s[0] && s[w..goalEnd][0] == s[w];
    UserStory(
      Sanitize(s[..w]),
      Sanitize(s[w..goalEnd]),
      if hasReason then Sanitize(s[so..period.end]) else "",
      marker,
      marker && !period.found)
  }

  /** `identifyParts` on text whose dot runs were already replaced. */
  function IdentifyParts(t: string, rule: CutRule): (r: Result<UserStory>)
    ensures r.Success? ==> RoleIndex(t) >= 0
    ensures r.Success? ==> (r.value.containsListOrNote <==> exists p :: ListMarkerAt(t[RoleIndex(t)..], p))
  {
    var a := RoleIndex(t);
    if a == -1 then Failure(NoUserStory(RoleMessage))
    else
      var s := Shortened(t, rule);
      var w := IndexOf(ToUpper(s), "I WANT");
      if w == -1 then Failure(NoUserStory(GoalMessage))
      else
        ShortenedStartsWithRole(t, rule);
        assert w > 0 by {
          if w == 0 { assert ToUpper(s)[0] == Upper(s[0]); }
        }
        Success(Assemble(s, w, IndexOfListOrNote(t[a..]) < |t[a..]|))
  }

  /** A character whose upper case is a letter is neither '*' nor
      whitespace. */
  lemma LetterIsNotSpace(c: char)
    requires 'A' <= Upper(c) <= 'Z'
    ensures c != '*' && !IsRegexSpace(c) && !IsJavaWhitespace(c) && !IsLineBreak(c)
  {
  }

  /** The shortened text starts with the "a" of the "as a" that was found. */
  lemma ShortenedStartsWithRole(t: string, rule: CutRule)
    requires RoleIndex(t) >= 0
    ensures |Shortened(t, rule)| > 0 && Upper(Shortened(t, rule)[0]) == 'A'
  {
    var a := RoleIndex(t);
    assert ToUpper(t)[a..a + 4] == "AS A";
    assert ToUpper(t)[a..a + 4][0] == ToUpper(t)[a];
    assert Upper(t[a]) == 'A';
    LetterIsNotSpace(t[a]);
    var rest := t[a..];
    assert rest[0] == t[a];
    assert !ListMarkerAt(rest, 0);
    assert Kept(t)[0] == t[a];
  }

  /** The parser the rest of the model uses: `new UserStory(s)` with its cut
      rule corrected, so that " […]" marks only a list or note that was
      cut off. Dot runs are replaced, then the parts identified. The
      constructor as written is `ParseAsWritten`. */
  function Parse(input: string): (r: Result<UserStory>)
    ensures r == Failure(NoUserStory(RoleMessage)) <==> !Contains(ToUpper(ReplaceDotRuns(input)), "AS A")
  {
    MessagesDiffer();
    IdentifyParts(ReplaceDotRuns(input), AgainstKeptText)
  }

  /** `new UserStory(s)` as written: dot runs are replaced, then the parts
      identified, comparing the cut index with the length of the whole
      input. */
  function ParseAsWritten(input: string): (r: Result<UserStory>)
    ensures r == Failure(NoUserStory(RoleMessage)) <==> !Contains(ToUpper(ReplaceDotRuns(input)), "AS A")
  {
    MessagesDiffer();
    IdentifyParts(ReplaceDotRuns(input), AgainstInput)
  }

  /** The two rules part ways only over text before "as a": a story that
      starts with its role parses alike under both. */
  lemma ParseRulesAgree(input: string)
    requires RoleIndex(ReplaceDotRuns(input)) == 0
    ensures ParseAsWritten(input) == Parse(input)
  {
    var t := ReplaceDotRuns(input);
    assert t[RoleIndex(t)..] == t;
    assert Shortened(t, AgainstInput) == Shortened(t, AgainstKeptText);
  }

  /** `getUserStoryString` */
  function UserStoryString(us: UserStory): (r: string)
    ensures StartsWith(r, us.role) && EndsWith(r, us.reason)
    ensures |r| == |us.role| + |us.goal| + |us.reason| && r[|us.role|..|us.role| + |us.goal|] == us.goal
  {
    us.role + us.goal + us.reason
  }

  /** `containsReason` */
  predicate ContainsReason(us: UserStory)
    ensures !ContainsReason(us) <==> UserStoryString(us) == us.role + us.goal
  {
    us.reason != ""
  }

  /* ---------------------------------------------------------------------
     Properties
     --------------------------------------------------------------------- */

  /** The role error is raised exactly when no "as a" occurs, in any case;
      it is a plain substring test, so "has a" counts. */
  lemma RoleErrorIff(t: string, rule: CutRule)
    ensures IdentifyParts(t, rule) == Failure(NoUserStory(RoleMessage))
      <==> forall k :: !OccursAt("AS A", ToUpper(t), k)
    ensures IdentifyParts("has a", rule) != Failure(NoUserStory(RoleMessage))
  {
    MessagesDiffer();
    ContainsIff(ToUpper(t), "AS A");
    HasAContainsRole("has a", ToUpper("has a"));
    ContainsIff(ToUpper("has a"), "AS A");
  }

  /** The role and goal messages are different texts. */
  lemma MessagesDiffer()
    ensures RoleMessage != GoalMessage
  {
    assert RoleMessage[2] == 'r' && GoalMessage[2] == 'g';
  }

  /** "has a", upper-cased, holds "AS A" at index 1. */
  lemma HasAContainsRole(h: string, u: string)
    requires h == "has a" && u == ToUpper(h)
    ensures OccursAt("AS A", u, 1)
  {
    HasALetters(h);
    assert u[1..5] == [u[1], u[2], u[3], u[4]];
  }

  lemma HasALetters(h: string)
    requires h == "has a"
    ensures |h| == 5 && h[1] == 'a' && h[2] == 's' && h[3] == ' ' && h[4] == 'a'
  {
  }

  /** " […]" never creates or hides an "I WANT". */
  lemma CutMarkerHidesNoGoal(x: string, k: int)
    ensures OccursAt("I WANT", ToUpper(x + CutMarker), k) <==> OccursAt("I WANT", ToUpper(x), k)
  {
    var u := ToUpper(x + CutMarker);
    if 0 <= k && k + 6 <= |x| {
      assert u[k..k + 6] == ToUpper(x)[k..k + 6];
    } else if 0 <= k && k + 6 <= |u| {
      // the window ends inside " […]", whose space meets a letter of "WANT"
      assert u[k..k + 6][|x| - k] == u[|x|] == ' ';
      assert "I WANT"[|x| - k] != ' ';
    }
  }

  /** The goal error is raised exactly when the kept text has no "I want",
      in any case, whichever cut rule is used. */
  lemma GoalErrorIff(t: string, rule: CutRule)
    requires RoleIndex(t) >= 0
    ensures IdentifyParts(t, rule) == Failure(NoUserStory(GoalMessage))
      <==> forall k :: !OccursAt("I WANT", ToUpper(Kept(t)), k)
  {
    var s := Shortened(t, rule);
    forall k ensures OccursAt("I WANT", ToUpper(s), k) <==> OccursAt("I WANT", ToUpper(Kept(t)), k) {
      if MarkCut(t, rule) {
        CutMarkerHidesNoGoal(Kept(t), k);
      }
    }
    ContainsIff(ToUpper(s), "I WANT");
  }

  /** A successful parse assembles the parts of the shortened text at its
      first "I want". */
  lemma IdentifyPartsAssembles(t: string, rule: CutRule)
    requires IdentifyParts(t, rule).Success?
    ensures RoleIndex(t) >= 0
    ensures var s := Shortened(t, rule);
      var w := IndexOf(ToUpper(s), "I WANT");
      0 < w && Upper(s[0]) == 'A'
      && IdentifyParts(t, rule).value
         == Assemble(s, w, exists p :: ListMarkerAt(t[RoleIndex(t)..], p))
  {
    ShortenedStartsWithRole(t, rule);
  }

  /** A "so that" that does not come after the sentence end starts
      strictly before it, with the letter 'S'. */
  lemma SoThatBeforeEnd(s: string, w: nat)
    requires 0 < w && OccursAt("I WANT", ToUpper(s), w)
    requires Upper(s[0]) == 'A'
    ensures var so := IndexOfFrom(ToUpper(s), "SO THAT", w);
      var end := FindSentencePeriodFrom(s, w + 1).end;
      so != -1 && so <= end ==> so < end && Upper(s[so]) == 'S'
  {
    var so := IndexOfFrom(ToUpper(s), "SO THAT", w);
    SentenceEndIsSpace(s, w + 1);
    if so != -1 {
      SoThatAt(s, so, FindSentencePeriodFrom(s, w + 1).end);
    }
  }

  /** A "so that" at `so` does not start at a whitespace `end`. */
  lemma SoThatAt(s: string, so: nat, end: nat)
    requires OccursAt("SO THAT", ToUpper(s), so)
    requires end == |s| || (end < |s| && IsJavaWhitespace(s[end]))
    ensures so <= end ==> so < end && Upper(s[so]) == 'S'
  {
    var u := ToUpper(s);
    assert u[so..so + 7][0] == u[so];
    LetterIsNotSpace(s[so]);
  }

  /** The search stops at the end of the text or just before whitespace. */
  lemma SentenceEndIsSpace(s: string, from: nat)
    ensures var end := FindSentencePeriodFrom(s, from).end;
      end == |s| || IsJavaWhitespace(s[end])
  {
    var r := FindSentencePeriodFrom(s, from);
    FindSentencePeriodSpec(s, from);
    if r.found && r.end < |s| {
      assert EndsSentenceAt(s, r.end - 1);
    }
  }

  /** A slice that starts with a letter survives sanitising. */
  lemma SanitizeLetterSlice(s: string, i: nat, j: nat)
    requires i < j <= |s| && 'A' <= Upper(s[i]) <= 'Z'
    ensures Sanitize(s[i..j]) != ""
  {
    LetterIsNotSpace(s[i]);
    assert s[i..j][0] == s[i];
  }

  /** A reason exists exactly when "so that" follows "I want" and does not
      come after the sentence end; otherwise the goal runs to the sentence
      end. */
  lemma ReasonIff(s: string, w: nat, marker: bool)
    requires 0 < w && OccursAt("I WANT", ToUpper(s), w)
    requires Upper(s[0]) == 'A'
    ensures var us := Assemble(s, w, marker);
      var so := IndexOfFrom(ToUpper(s), "SO THAT", w);
      var end := FindSentencePeriodFrom(s, w + 1).end;
      us.role == Sanitize(s[..w])
      && (ContainsReason(us) <==> so != -1 && so <= end)
      && (!ContainsReason(us) ==> us.goal == Sanitize(s[w..end]))
      && (ContainsReason(us) ==> us.goal == Sanitize(s[w..so]) && us.reason == Sanitize(s[so..end]))
  {
    var so := IndexOfFrom(ToUpper(s), "SO THAT", w);
    var end := FindSentencePeriodFrom(s, w + 1).end;
    SoThatBeforeEnd(s, w);
    if so != -1 && so <= end {
      SanitizeLetterSlice(s, so, end);
    }
  }

  /** A cut is only flagged when a list or note was found and no sentence
      period follows "I want". */
  lemma WasCutIff(s: string, w: nat, marker: bool)
    requires 0 < w && OccursAt("I WANT", ToUpper(s), w)
    requires Upper(s[0]) == 'A'
    ensures Assemble(s, w, marker).wasCutAtListOrNote
      <==> marker && !(exists q :: w < q && EndsSentenceAt(s, q))
  {
    var period := FindSentencePeriodFrom(s, w + 1);
    FindSentencePeriodSpec(s, w + 1);
    if exists q :: w < q && EndsSentenceAt(s, q) {
      var q :| w < q && EndsSentenceAt(s, q);
      assert w + 1 <= q;
    }
  }

  /** The corrected rule appends " […]" exactly when a list or note was
      cut off. */
  lemma MarkCutIff(t: string)
    requires RoleIndex(t) >= 0
    ensures MarkCut(t, AgainstKeptText) <==> exists p :: ListMarkerAt(t[RoleIndex(t)..], p)
    ensures Shortened(t, AgainstKeptText) == Kept(t) <==> !exists p :: ListMarkerAt(t[RoleIndex(t)..], p)
  {
    assert CutMarker != [];
  }

  /** As written, " […]" is also appended when no list or note exists but
      any text came before "as a". */
  lemma MarkCutAsWrittenIff(t: string)
    requires RoleIndex(t) >= 0
    ensures MarkCut(t, AgainstInput) <==> (exists p :: ListMarkerAt(t[RoleIndex(t)..], p)) || RoleIndex(t) > 0
  {
  }

  /** A story preceded by a greeting, with no list or note. */
  const Greeted: string := "Hi. As a user, I want x"

  lemma GreetedRoleIndex()
    ensures RoleIndex(Greeted) == 4
  {
    var u := ToUpper(Greeted);
    GreetedUpper(Greeted, u);
    AsAAtFour(u);
  }

  /** The upper-cased greeting starts "HI. AS A". */
  lemma GreetedUpper(g: string, u: string)
    requires g == Greeted && u == ToUpper(g)
    ensures |u| >= 8 && u[0] == 'H' && u[1] == 'I' && u[2] == '.' && u[3] == ' '
    ensures u[4..8] == "AS A"
  {
    GreetedLetters(g);
    assert u[4..8] == [u[4], u[5], u[6], u[7]];
  }

  /** The first eight characters of the greeting. */
  lemma GreetedLetters(g: string)
    requires g == Greeted
    ensures |g| >= 8 && g[0] == 'H' && g[1] == 'i' && g[2] == '.' && g[3] == ' '
    ensures g[4] == 'A' && g[5] == 's' && g[6] == ' ' && g[7] == 'a'
  {
  }

  /** A text whose first "AS A" starts at index 4. */
  lemma AsAAtFour(u: string)
    requires |u| >= 8 && u[0] == 'H' && u[1] == 'I' && u[2] == '.' && u[3] == ' '
    requires u[4..8] == "AS A"
    ensures IndexOf(u, "AS A") == 4
  {
    forall k | 0 <= k < 4 ensures !OccursAt("AS A", u, k) {
      assert u[k..k + 4][0] == u[k];
    }
    assert OccursAt("AS A", u, 4);
    var r := IndexOf(u, "AS A");
    assert r != -1;
  }

  /** Text without line breaks holds no list or note. */
  lemma NoLineBreakNoMarker(s: string)
    requires forall i :: 0 <= i < |s| ==> !IsLineBreak(s[i])
    ensures forall p :: !ListMarkerAt(s, p)
  {
  }

  lemma GreetedHasNoMarker()
    ensures forall p :: !ListMarkerAt(Greeted[4..], p)
  {
    var rest := Greeted[4..];
    forall i | 0 <= i < |rest| ensures !IsLineBreak(rest[i]) {
      assert rest[i] == Greeted[i + 4];
    }
    NoLineBreakNoMarker(rest);
  }

  /** A concrete input for the difference: with a greeting before the
      story and no list, the parser as written still marks a cut, the
      corrected rule does not. */
  lemma MarkCutAsWrittenExample()
    ensures RoleIndex(Greeted) == 4
    ensures MarkCut(Greeted, AgainstInput)
    ensures !MarkCut(Greeted, AgainstKeptText)
    ensures EndsWith(Shortened(Greeted, AgainstInput), CutMarker)
    ensures Shortened(Greeted, AgainstKeptText) == Greeted[4..]
  {
    GreetedRoleIndex();
    GreetedHasNoMarker();
    MarkCutAsWrittenIff(Greeted);
    MarkCutIff(Greeted);
    var sh := Shortened(Greeted, AgainstInput);
    assert sh[|sh| - |CutMarker|..] == CutMarker;
  }

  /** Sanitising leaves a part with single plain spaces and no '*' alone. */
  lemma SanitizeIdentity(x: string)
    requires '*' !in x && NoDoubleSpace(x) && OnlyPlainSpaces(x)
    ensures Sanitize(x) == x
  {
    CollapseSpacesIdentity(x);
  }

  /** Slices keep single plain spaces and the absence of '*'. */
  lemma PlainSlice(s: string, i: nat, j: nat)
    requires i <= j <= |s|
    requires NoDoubleSpace(s) && OnlyPlainSpaces(s) && '*' !in s
    ensures NoDoubleSpace(s[i..j]) && OnlyPlainSpaces(s[i..j]) && '*' !in s[i..j]
  {
    var x := s[i..j];
    forall k ensures !DoubleSpaceAt(x, k) {
      assert !DoubleSpaceAt(s, i + k);
      if 0 <= k < |x| - 1 {
        assert x[k] == s[i + k] && x[k + 1] == s[i + k + 1];
      }
    }
    forall k | 0 <= k < |x| ensures IsRegexSpace(x[k]) ==> x[k] == ' ' {
      assert x[k] == s[i + k];
    }
  }

  /** A story that starts with "As a", has single plain spaces only and no
      '*', run of three periods or list marker is reproduced by its parts up
      to the sentence end, and completely when no sentence period follows
      "I want". */
  lemma UserStoryStringRoundTrip(t: string)
    requires StartsWith(ToUpper(t), "AS A")
    requires NoDoubleSpace(t) && OnlyPlainSpaces(t) && '*' !in t && NoTripleDot(t)
    requires forall p :: !ListMarkerAt(t, p)
    requires Parse(t).Success?
    ensures StartsWith(t, UserStoryString(Parse(t).value))
    ensures var w := IndexOf(ToUpper(t), "I WANT");
      !(exists q :: w < q && EndsSentenceAt(t, q)) ==> UserStoryString(Parse(t).value) == t
  {
    ReplaceDotRunsIdentity(t);
    assert OccursAt("AS A", ToUpper(t), 0);
    assert t[0..] == t;
    assert Shortened(t, AgainstKeptText) == t;
    IdentifyPartsAssembles(t, AgainstKeptText);
    var w := IndexOf(ToUpper(t), "I WANT");
    AssembleRoundTrip(t, w);
    FindSentencePeriodSpec(t, w + 1);
  }

  /** On a text without '*' and with single plain spaces, the assembled
      parts are consecutive slices of the text up to the sentence end. */
  lemma AssembleRoundTrip(s: string, w: nat)
    requires 0 < w && OccursAt("I WANT", ToUpper(s), w)
    requires Upper(s[0]) == 'A'
    requires NoDoubleSpace(s) && OnlyPlainSpaces(s) && '*' !in s
    ensures UserStoryString(Assemble(s, w, false)) == s[..FindSentencePeriodFrom(s, w + 1).end]
  {
    var so := IndexOfFrom(ToUpper(s), "SO THAT", w);
    var end := FindSentencePeriodFrom(s, w + 1).end;
    GoalBounds(s, w);
    ReasonIff(s, w, false);
    if so != -1 && so <= end {
      JoinPlainParts(s, w, so, end);
    } else {
      JoinPlainParts(s, w, end, end);
    }
  }

  /** Sanitising three consecutive plain slices and joining them gives the
      text back. */
  lemma JoinPlainParts(s: string, w: nat, m: nat, e: nat)
    requires w <= m <= e <= |s|
    requires NoDoubleSpace(s) && OnlyPlainSpaces(s) && '*' !in s
    ensures Sanitize(s[..w]) + Sanitize(s[w..m]) + (if m < e then Sanitize(s[m..e]) else "") == s[..e]
  {
    PlainPart(s, 0, w);
    PlainPart(s, w, m);
    PlainPart(s, m, e);
    SlicesJoin(s, w, m, e);
  }

  lemma SlicesJoin(s: string, w: nat, m: nat, e: nat)
    requires w <= m <= e <= |s|
    ensures s[0..w] + s[w..m] + (if m < e then s[m..e] else "") == s[..e]
  {
    assert s[0..w] + s[w..m] + s[m..e] == s[..e];
  }

  lemma PlainPart(s: string, i: nat, j: nat)
    requires i <= j <= |s|
    requires NoDoubleSpace(s) && OnlyPlainSpaces(s) && '*' !in s
    ensures Sanitize(s[i..j]) == s[i..j]
  {
    PlainSlice(s, i, j);
    SanitizeIdentity(s[i..j]);
  }

  /** A period that closes an abbreviation does not end the sentence,
      even before a space. */
  lemma AbbreviationIsNoSentenceEnd()
    ensures !IsSentenceEnding("see e.g. a", 7)
  {
    var x := "see e.g. a";
    assert x[..8] == "see e.g.";
    assert "see e.g."[4..] == "e.g.";
    assert EndsWith(x[..8], Abbreviations[0]);
  }

  /** A period followed by a space ends the sentence unless it closes an
      abbreviation; a period followed by a letter never does, and a period
      at the end of the text always does. */
  lemma SentenceEndingExamples()
    ensures IsSentenceEnding("it works. a", 8)
    ensures !IsSentenceEnding("v1.2", 2)
    ensures IsSentenceEnding("end.", 3)
  {
    WorksEnds("it works. a");
  }

  lemma WorksEnds(x: string)
    requires x == "it works. a"
    ensures IsSentenceEnding(x, 8)
  {
    WorksLetters(x);
    var y := x[..9];
    assert y[7] == 's';
    AfterSNoAbbreviation(y);
  }

  lemma WorksLetters(x: string)
    requires x == "it works. a"
    ensures |x| == 11 && x[7] == 's' && x[9] == ' '
  {
  }

  /** No abbreviation has an 's' before its final period. */
  lemma AfterSNoAbbreviation(y: string)
    requires |y| >= 2 && y[|y| - 2] == 's'
    ensures !EndsWithAny(y, Abbreviations)
  {
    AbbreviationsPenultimate();
    NoneEndsAfterS(y, Abbreviations);
  }

  /** `a` has two characters or more and no 's' before the last. */
  predicate PenultimateNotS(a: string) {
    |a| >= 2 && a[|a| - 2] != 's'
  }

  lemma AbbreviationsPenultimate()
    ensures forall i :: 0 <= i < |Abbreviations| ==> PenultimateNotS(Abbreviations[i])
  {
  }

  lemma {:induction false} NoneEndsAfterS(y: string, abbreviations: seq<string>)
    requires |y| >= 2 && y[|y| - 2] == 's'
    requires forall i :: 0 <= i < |abbreviations| ==> PenultimateNotS(abbreviations[i])
    ensures !EndsWithAny(y, abbreviations)
    decreases |abbreviations|
  {
    if |abbreviations| > 0 {
      var a := abbreviations[0];
      assert PenultimateNotS(a);
      NoneEndsAfterS(y, abbreviations[1..]);
    }
  }
}
