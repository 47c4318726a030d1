/** The small part of `java.lang.String` and `java.util.regex` the modelled
    code relies on, restricted to ASCII case mapping (lower/upper case never
    change a string's length here). Every search returns Java's `-1` when
    nothing is found. */
module Strings {

  /* ---------------------------------------------------------------------
     Prefixes, suffixes and occurrences
     --------------------------------------------------------------------- */

  /** `s.startsWith(p)` */
  predicate StartsWith(s: string, p: string) {
    |p| <= |s| && s[..|p|] == p
  }

  /** `s.endsWith(p)` */
  predicate EndsWith(s: string, p: string) {
    |p| <= |s| && s[|s| - |p|..] == p
  }

  /** `pat` occurs in `s` starting at index `k`. */
  predicate OccursAt(pat: string, s: string, k: int) {
    0 <= k && k + |pat| <= |s| && s[k..k + |pat|] == pat
  }

  /** `s.indexOf(pat, from)`: the least occurrence at or after `from`.
      Java answers `|s|` for an empty `pat` with `from > |s|`, where this
      answers -1; every caller here searches from within the text. */
  function IndexOfFrom(s: string, pat: string, from: nat): (r: int)
    ensures r == -1 || (from <= r && OccursAt(pat, s, r))
    ensures r == -1 ==> forall k :: from <= k ==> !OccursAt(pat, s, k)
    ensures r >= 0 ==> forall k :: from <= k < r ==> !OccursAt(pat, s, k)
    decreases |s| - from
  {
    if from + |pat| > |s| then -1
    else if s[from..from + |pat|] == pat then from
    else IndexOfFrom(s, pat, from + 1)
  }

  /** `s.indexOf(pat)` */
  function IndexOf(s: string, pat: string): int {
    IndexOfFrom(s, pat, 0)
  }

  /** `s.contains(pat)` */
  predicate Contains(s: string, pat: string) {
    IndexOf(s, pat) >= 0
  }

  lemma ContainsIff(s: string, pat: string)
    ensures Contains(s, pat) <==> exists k :: OccursAt(pat, s, k)
  {
    if exists k :: OccursAt(pat, s, k) {
      var k :| OccursAt(pat, s, k);
      assert 0 <= k;
    }
  }

  /** `s.lastIndexOf(pat)`: the greatest occurrence at or below `upTo`. */
  function LastIndexOfUpTo(s: string, pat: string, upTo: int): (r: int)
    ensures r == -1 || (r <= upTo && OccursAt(pat, s, r))
    ensures r == -1 ==> forall k :: k <= upTo ==> !OccursAt(pat, s, k)
    ensures r >= 0 ==> forall k :: r < k <= upTo ==> !OccursAt(pat, s, k)
    decreases upTo + 1
  {
    if upTo < 0 then -1
    else if OccursAt(pat, s, upTo) then upTo
    else LastIndexOfUpTo(s, pat, upTo - 1)
  }

  function LastIndexOf(s: string, pat: string): int {
    LastIndexOfUpTo(s, pat, |s|)
  }

  /** A suffix is the last occurrence, because no occurrence can begin
      later than `|s| - |pat|`. */
  lemma LastIndexOfSuffix(s: string, pat: string)
    requires EndsWith(s, pat)
    ensures LastIndexOf(s, pat) == |s| - |pat|
  {
    assert OccursAt(pat, s, |s| - |pat|);
  }

  /* ---------------------------------------------------------------------
     ASCII case mapping
     --------------------------------------------------------------------- */

  function Lower(c: char): char {
    if 'A' <= c <= 'Z' then (c as int + 32) as char else c
  }

  function Upper(c: char): char {
    if 'a' <= c <= 'z' then (c as int - 32) as char else c
  }

  function ToLower(s: string): (r: string)
    ensures |r| == |s|
    ensures forall i :: 0 <= i < |s| ==> r[i] == Lower(s[i])
  {
    seq(|s|, i requires 0 <= i < |s| => Lower(s[i]))
  }

  function ToUpper(s: string): (r: string)
    ensures |r| == |s|
    ensures forall i :: 0 <= i < |s| ==> r[i] == Upper(s[i])
  {
    seq(|s|, i requires 0 <= i < |s| => Upper(s[i]))
  }

  /** `a.equalsIgnoreCase(b)` */
  predicate EqualsIgnoreCase(a: string, b: string) {
    ToLower(a) == ToLower(b)
  }

  /* ---------------------------------------------------------------------
     Whitespace
     --------------------------------------------------------------------- */

  /** The regular-expression class `\s`: `[ \t\n\x0B\f\r]`. */
  predicate IsRegexSpace(c: char) {
    c in RegexSpaces
  }

  /** The characters of the regular-expression class `\s`. */
  const RegexSpaces: set<char> := {' ', '\t', '\n', '\U{000B}', '\U{000C}', '\r'}

  /** The regular-expression class `\R` (single-character line breaks; the
      two-character `\r\n` is covered because `\n` is itself `\s`). */
  predicate IsLineBreak(c: char) {
    c == '\n' || c == '\U{000B}' || c == '\U{000C}' || c == '\r'
    || c == '\U{0085}' || c == '\U{2028}' || c == '\U{2029}'
  }

  /** `Character.isWhitespace`: the Unicode space separators other than the
      non-breaking ones, plus the ASCII controls 9-13 and 28-31. */
  predicate IsJavaWhitespace(c: char) {
    c == ' ' || ('\t' <= c <= '\r') || ('\U{001C}' <= c <= '\U{001F}')
    || c == '\U{1680}' || ('\U{2000}' <= c <= '\U{2006}') || ('\U{2008}' <= c <= '\U{200A}')
    || c == '\U{2028}' || c == '\U{2029}' || c == '\U{205F}' || c == '\U{3000}'
  }

  /** Length of the run of `\s` characters at the start of `s`. */
  function SpaceRun(s: string): (r: nat)
    ensures r <= |s|
    ensures forall i :: 0 <= i < r ==> IsRegexSpace(s[i])
    ensures r < |s| ==> !IsRegexSpace(s[r])
  {
    if s == [] || !IsRegexSpace(s[0]) then 0 else 1 + SpaceRun(s[1..])
  }

  /** Two adjacent `\s` characters start at `i`. */
  predicate DoubleSpaceAt(s: string, i: int) {
    0 <= i < |s| - 1 && IsRegexSpace(s[i]) && IsRegexSpace(s[i + 1])
  }

  /** No two adjacent `\s` characters. */
  predicate NoDoubleSpace(s: string) {
    forall i :: 0 <= i < |s| ==> !DoubleSpaceAt(s, i)
  }

  /** Every `\s` character is a plain space. */
  predicate OnlyPlainSpaces(s: string) {
    forall i :: 0 <= i < |s| ==> IsRegexSpace(s[i]) ==> s[i] == ' '
  }

  /** `s.replaceAll("\\s+", " ")`: every maximal run of `\s` becomes one space. */
  function CollapseSpaces(s: string): (r: string)
    ensures NoDoubleSpace(r) && OnlyPlainSpaces(r)
    ensures Without(r, RegexSpaces) == Without(s, RegexSpaces)
    ensures |r| <= |s|
    ensures |r| > 0 <==> |s| > 0
    ensures |s| > 0 ==> (IsRegexSpace(r[0]) <==> IsRegexSpace(s[0]))
    ensures |s| > 0 && !IsRegexSpace(s[0]) ==> r[0] == s[0]
    ensures forall i :: 0 <= i < |r| && r[i] != ' ' ==> r[i] in s
  {
    CollapseProperties(s);
    Collapse(s)
  }

  /** The run-by-run recursion behind `CollapseSpaces`, without its contract. */
  function Collapse(s: string): string
    decreases |s|
  {
    if s == [] then []
    else if IsRegexSpace(s[0]) then [' '] + Collapse(s[SpaceRun(s)..])
    else [s[0]] + Collapse(s[1..])
  }

  /** What collapsing promises, one run at a time. */
  lemma {:induction false} CollapseProperties(s: string)
    ensures NoDoubleSpace(Collapse(s)) && OnlyPlainSpaces(Collapse(s))
    ensures Without(Collapse(s), RegexSpaces) == Without(s, RegexSpaces)
    ensures |Collapse(s)| <= |s|
    ensures |Collapse(s)| > 0 <==> |s| > 0
    ensures |s| > 0 ==> (IsRegexSpace(Collapse(s)[0]) <==> IsRegexSpace(s[0]))
    ensures |s| > 0 && !IsRegexSpace(s[0]) ==> Collapse(s)[0] == s[0]
    ensures forall i :: 0 <= i < |Collapse(s)| && Collapse(s)[i] != ' ' ==> Collapse(s)[i] in s
    decreases |s|
  {
    if s != [] {
      var k := if IsRegexSpace(s[0]) then SpaceRun(s) else 1;
      var c := if IsRegexSpace(s[0]) then ' ' else s[0];
      var tail := Collapse(s[k..]);
      CollapseProperties(s[k..]);
      assert Collapse(s) == [c] + tail;
      NoDoubleSpaceCons(c, tail);
      if IsRegexSpace(s[0]) {
        WithoutSkip(s, k, RegexSpaces);
      }
      assert ([c] + tail)[1..] == tail;
      forall i | 1 <= i < |Collapse(s)| && Collapse(s)[i] != ' ' ensures Collapse(s)[i] in s {
        assert Collapse(s)[i] == tail[i - 1] && tail[i - 1] in s[k..];
      }
    }
  }

  /** Putting a character in front keeps single spacing unless it makes a
      new pair of spaces. */
  lemma NoDoubleSpaceCons(c: char, t: string)
    requires NoDoubleSpace(t)
    requires |t| > 0 && IsRegexSpace(c) ==> !IsRegexSpace(t[0])
    ensures NoDoubleSpace([c] + t)
  {
    var r := [c] + t;
    forall i | 0 <= i < |r| ensures !DoubleSpaceAt(r, i) {
      if 1 <= i < |r| - 1 {
        assert !DoubleSpaceAt(t, i - 1);
        assert r[i] == t[i - 1] && r[i + 1] == t[i];
      }
    }
  }

  /** A string that already has single plain spaces only is left alone. */
  lemma {:induction false} CollapseSpacesIdentity(s: string)
    requires NoDoubleSpace(s) && OnlyPlainSpaces(s)
    ensures CollapseSpaces(s) == s
    decreases |s|
  {
    if s != [] {
      var t := s[1..];
      assert NoDoubleSpace(t) by {
        forall i ensures !DoubleSpaceAt(t, i) {
          assert !DoubleSpaceAt(s, i + 1);
          if 0 <= i < |t| - 1 {
            assert t[i] == s[i + 1] && t[i + 1] == s[i + 2];
          }
        }
      }
      assert OnlyPlainSpaces(t) by {
        forall i | 0 <= i < |t| ensures IsRegexSpace(t[i]) ==> t[i] == ' ' {
          assert t[i] == s[i + 1];
        }
      }
      CollapseSpacesIdentity(t);
      if IsRegexSpace(s[0]) {
        assert SpaceRun(s) == 1 by {
          assert !DoubleSpaceAt(s, 0);
        }
      }
    }
  }

  /** A run of `\s` ending at the end of `a` runs on into `b`; one ending
      inside `a` stays there. */
  lemma {:induction false} SpaceRunConcat(a: string, b: string)
    ensures SpaceRun(a) < |a| ==> SpaceRun(a + b) == SpaceRun(a)
    ensures SpaceRun(a) == |a| ==> SpaceRun(a + b) == |a| + SpaceRun(b)
  {
    if a == [] {
      assert a + b == b;
    } else {
      assert (a + b)[0] == a[0];
      if IsRegexSpace(a[0]) {
        assert (a + b)[1..] == a[1..] + b;
        SpaceRunConcat(a[1..], b);
      }
    }
  }

  /** Collapsing works piece by piece as long as the cut does not fall
      inside a run of `\s`: the two pieces collapse independently. */
  lemma CollapseSpacesConcat(a: string, b: string)
    requires a == [] || b == [] || !IsRegexSpace(a[|a| - 1]) || !IsRegexSpace(b[0])
    ensures CollapseSpaces(a + b) == CollapseSpaces(a) + CollapseSpaces(b)
  {
    CollapseConcat(a, b);
  }

  /** `CollapseSpacesConcat` for the bare recursion, by induction on `a`. */
  lemma {:induction false} CollapseConcat(a: string, b: string)
    requires a == [] || b == [] || !IsRegexSpace(a[|a| - 1]) || !IsRegexSpace(b[0])
    ensures Collapse(a + b) == Collapse(a) + Collapse(b)
    decreases |a|
  {
    if a == [] {
      assert a + b == b;
    } else {
      assert (a + b)[0] == a[0];
      if !IsRegexSpace(a[0]) {
        assert (a + b)[1..] == a[1..] + b;
        CollapseConcat(a[1..], b);
      } else {
        var k := SpaceRun(a);
        SpaceRunConcat(a, b);
        if k == |a| {
          assert (a + b)[k..] == b;
          assert a[k..] == [];
        } else {
          assert (a + b)[k..] == a[k..] + b;
          var rest := a[k..];
          assert rest[|rest| - 1] == a[|a| - 1];
          CollapseConcat(rest, b);
        }
      }
    }
  }

  /** A character put in front of a concatenation is put in front of its
      first part. */
  lemma ConsRegroup(p: string, q: string, c: char, x: string, y: string)
    requires p == [c] + (x + y) && q == [c] + x
    ensures p == q + y
  {
  }

  /** A non-empty run of `\s` on its own collapses to one space. */
  lemma CollapseSpacesRun(w: string)
    requires |w| > 0 && forall i :: 0 <= i < |w| ==> IsRegexSpace(w[i])
    ensures CollapseSpaces(w) == " "
  {
    assert SpaceRun(w) == |w| by { SpaceRunAll(w); }
    assert w[|w|..] == [];
    assert Collapse(w) == [' '] + Collapse([]);
  }

  /** A string made of `\s` only is one run. */
  lemma {:induction false} SpaceRunAll(w: string)
    requires forall i :: 0 <= i < |w| ==> IsRegexSpace(w[i])
    ensures SpaceRun(w) == |w|
  {
    if w != [] {
      SpaceRunAll(w[1..]);
    }
  }

  /** `s.replaceAll("^\\s+", "")` */
  function TrimLeadingSpaces(s: string): (r: string)
    ensures |s| > 0 && !IsRegexSpace(s[0]) ==> r == s
    ensures |r| <= |s| && r == s[|s| - |r|..]
    ensures |r| > 0 ==> !IsRegexSpace(r[0])
    ensures forall i :: 0 <= i < |s| - |r| ==> IsRegexSpace(s[i])
  {
    s[SpaceRun(s)..]
  }

  /* ---------------------------------------------------------------------
     Character removal, trailing trimming
     --------------------------------------------------------------------- */

  /** The characters of `s` outside `drop`, in their order. */
  function Without(s: string, drop: set<char>): (r: string)
    ensures forall i :: 0 <= i < |r| ==> r[i] !in drop
    ensures |r| <= |s|
  {
    if s == [] then [] else (if s[0] in drop then [] else [s[0]]) + Without(s[1..], drop)
  }

  /** Filtering distributes over concatenation. */
  lemma {:induction false} WithoutAppend(a: string, b: string, drop: set<char>)
    ensures Without(a + b, drop) == Without(a, drop) + Without(b, drop)
  {
    if a == [] {
      assert a + b == b;
    } else {
      assert (a + b)[1..] == a[1..] + b;
      WithoutAppend(a[1..], b, drop);
    }
  }

  /** Characters that are all filtered out leave no trace. */
  lemma {:induction false} WithoutSkip(s: string, k: nat, drop: set<char>)
    requires k <= |s| && forall i :: 0 <= i < k ==> s[i] in drop
    ensures Without(s, drop) == Without(s[k..], drop)
  {
    if k > 0 {
      assert s[1..][k - 1..] == s[k..];
      WithoutSkip(s[1..], k - 1, drop);
    }
  }

  /** Filtering twice is filtering once by both sets. */
  lemma {:induction false} WithoutTwice(s: string, a: set<char>, b: set<char>)
    ensures Without(Without(s, a), b) == Without(s, a + b)
  {
    if s != [] {
      WithoutTwice(s[1..], a, b);
      var head := if s[0] in a then [] else [s[0]];
      WithoutAppend(head, Without(s[1..], a), b);
    }
  }

  /** Filtering keeps only characters that were there. */
  lemma {:induction false} WithoutWithin(s: string, drop: set<char>, within: set<char>)
    requires forall i :: 0 <= i < |s| ==> s[i] in within
    ensures forall i :: 0 <= i < |Without(s, drop)| ==> Without(s, drop)[i] in within - drop
  {
    if s != [] {
      WithoutWithin(s[1..], drop, within);
    }
  }

  /** `s.replaceAll(c, "")` for a single literal character `c`. */
  function RemoveChar(s: string, c: char): (r: string)
    ensures c !in r
    ensures c !in s ==> r == s
    ensures |s| > 0 && s[0] != c ==> |r| > 0 && r[0] == s[0]
  {
    if s == [] then []
    else if s[0] == c then
      assert s == [s[0]] + s[1..];
      RemoveChar(s[1..], c)
    else
      assert s == [s[0]] + s[1..];
      [s[0]] + RemoveChar(s[1..], c)
  }

  /** Removing a character works piece by piece. */
  lemma {:induction false} RemoveCharAppend(a: string, b: string, c: char)
    ensures RemoveChar(a + b, c) == RemoveChar(a, c) + RemoveChar(b, c)
  {
    if a == [] {
      assert a + b == b;
    } else {
      var ab := a + b;
      assert ab[0] == a[0] && ab[1..] == a[1..] + b;
      RemoveCharAppend(a[1..], b, c);
      if a[0] == c {
        assert RemoveChar(ab, c) == RemoveChar(ab[1..], c);
        assert RemoveChar(a, c) == RemoveChar(a[1..], c);
      } else {
        assert RemoveChar(ab, c) == [a[0]] + RemoveChar(ab[1..], c);
        assert RemoveChar(a, c) == [a[0]] + RemoveChar(a[1..], c);
      }
    }
  }

  /** Removing a character is the filter that drops just that character. */
  lemma {:induction false} RemoveCharIsWithout(s: string, c: char)
    ensures RemoveChar(s, c) == Without(s, {c})
  {
    if s != [] {
      RemoveCharIsWithout(s[1..], c);
    }
  }

  /** `while (s.endsWith(c)) s = s.substring(0, s.length() - 1);`, the loop
      the code writes out for trailing spaces and for trailing commas. */
  function StripTrailing(s: string, c: char): (r: string)
    ensures StartsWith(s, r)
    ensures !EndsWith(r, [c])
    ensures forall i :: |r| <= i < |s| ==> s[i] == c
    decreases |s|
  {
    if |s| > 0 && s[|s| - 1] == c then StripTrailing(s[..|s| - 1], c) else s
  }

  /* ---------------------------------------------------------------------
     String.replace(CharSequence, CharSequence)
     --------------------------------------------------------------------- */

  /** `s.replace(target, rep)`: every non-overlapping occurrence, scanned
      left to right; an empty target inserts `rep` around every character. */
  function ReplaceLiteral(s: string, target: string, rep: string): string {
    if |target| == 0 then InsertAround(s, rep) else ReplaceAll(s, target, rep)
  }

  /** The empty target: `rep` before every character and at the end. */
  function InsertAround(s: string, rep: string): string
    decreases |s|
  {
    if s == [] then rep else rep + [s[0]] + InsertAround(s[1..], rep)
  }

  /** A non-empty target, replaced from left to right. */
  function ReplaceAll(s: string, target: string, rep: string): string
    requires |target| > 0
    decreases |s|
  {
    if |s| < |target| then s
    else if s[..|target|] == target then rep + ReplaceAll(s[|target|..], target, rep)
    else [s[0]] + ReplaceAll(s[1..], target, rep)
  }

  /** An occurrence at `j >= 1` is one at `j - 1` in the tail. */
  lemma OccursInTail(s: string, target: string, j: int)
    requires 1 <= j
    ensures OccursAt(target, s, j) <==> |s| > 0 && OccursAt(target, s[1..], j - 1)
  {
    if |s| > 0 && j + |target| <= |s| {
      assert s[1..][j - 1..j - 1 + |target|] == s[j..j + |target|];
    }
  }

  /** Without an occurrence of a non-empty target, nothing is replaced. */
  lemma ReplaceLiteralAbsent(s: string, target: string, rep: string)
    requires |target| > 0
    requires forall k :: !OccursAt(target, s, k)
    ensures ReplaceLiteral(s, target, rep) == s
  {
    ReplaceAllAbsent(s, target, rep);
  }

  /** `ReplaceAll` without an occurrence changes nothing. */
  lemma {:induction false} ReplaceAllAbsent(s: string, target: string, rep: string)
    requires |target| > 0
    requires forall k :: !OccursAt(target, s, k)
    ensures ReplaceAll(s, target, rep) == s
    decreases |s|
  {
    if |s| >= |target| {
      assert !OccursAt(target, s, 0);
      forall k ensures !OccursAt(target, s[1..], k) {
        if k >= 0 {
          OccursInTail(s, target, k + 1);
        }
      }
      ReplaceAllAbsent(s[1..], target, rep);
    }
  }

  /** `replace` keeps the text before the first occurrence of a non-empty
      target, puts the replacement there and carries on after it. */
  lemma ReplaceLiteralAtFirst(s: string, target: string, rep: string)
    requires |target| > 0 && IndexOf(s, target) >= 0
    ensures var k := IndexOf(s, target);
      k + |target| <= |s|
      && ReplaceLiteral(s, target, rep) == s[..k] + rep + ReplaceLiteral(s[k + |target|..], target, rep)
  {
    ReplaceAtOccurrence(s, target, rep, IndexOf(s, target));
  }

  /** `ReplaceAll` keeps the text before an occurrence that no earlier one
      precedes, and puts the replacement there. */
  lemma {:induction false} ReplaceAtOccurrence(s: string, target: string, rep: string, k: nat)
    requires |target| > 0 && OccursAt(target, s, k)
    requires forall j :: 0 <= j < k ==> !OccursAt(target, s, j)
    ensures ReplaceAll(s, target, rep) == s[..k] + rep + ReplaceAll(s[k + |target|..], target, rep)
    decreases k
  {
    if k == 0 {
      ReplaceAtStart(s, target, rep);
    } else {
      FirstOccurrenceInTail(s, target, k);
      ReplaceAtOccurrence(s[1..], target, rep, k - 1);
      ReplaceAtFirstStep(s, target, rep, k);
    }
  }

  /** A target at the start is replaced first. */
  lemma ReplaceAtStart(s: string, target: string, rep: string)
    requires |target| > 0 && OccursAt(target, s, 0)
    ensures ReplaceAll(s, target, rep) == s[..0] + rep + ReplaceAll(s[|target|..], target, rep)
  {
    var rest := ReplaceAll(s[|target|..], target, rep);
    assert s[..|target|] == target;
    assert ReplaceAll(s, target, rep) == rep + rest;
    assert s[..0] + rep == rep;
  }

  /** A first occurrence at `k >= 1` is a first occurrence at `k - 1` in the
      tail. */
  lemma FirstOccurrenceInTail(s: string, target: string, k: int)
    requires 1 <= k && OccursAt(target, s, k) && forall j :: 0 <= j < k ==> !OccursAt(target, s, j)
    ensures |s| > 0 && OccursAt(target, s[1..], k - 1) && forall j :: 0 <= j < k - 1 ==> !OccursAt(target, s[1..], j)
  {
    OccursInTail(s, target, k);
    forall j | 0 <= j < k - 1 ensures !OccursAt(target, s[1..], j) {
      OccursInTail(s, target, j + 1);
    }
  }

  /** The step of `ReplaceAtOccurrence` past a first character that does
      not start the target. */
  lemma ReplaceAtFirstStep(s: string, target: string, rep: string, k: int)
    requires |target| > 0 && 1 <= k && k + |target| <= |s| && !OccursAt(target, s, 0)
    requires ReplaceAll(s[1..], target, rep)
      == s[1..][..k - 1] + rep + ReplaceAll(s[1..][k - 1 + |target|..], target, rep)
    ensures ReplaceAll(s, target, rep) == s[..k] + rep + ReplaceAll(s[k + |target|..], target, rep)
  {
    var t := s[1..];
    var rest := ReplaceAll(s[k + |target|..], target, rep);
    assert s[..|target|] != target;
    assert t[k - 1 + |target|..] == s[k + |target|..];
    calc {
      ReplaceAll(s, target, rep);
      [s[0]] + ReplaceAll(t, target, rep);
      [s[0]] + (t[..k - 1] + rep + rest);
      { ConcatAssoc4([s[0]], t[..k - 1], rep, rest); }
      [s[0]] + t[..k - 1] + rep + rest;
      { assert s[..k] == [s[0]] + t[..k - 1]; }
      s[..k] + rep + rest;
    }
  }

  /** Regrouping a concatenation of four. */
  lemma ConcatAssoc4(a: string, b: string, c: string, d: string)
    ensures a + (b + c + d) == a + b + c + d
  {
  }

  /** Replacing a target by itself changes nothing. */
  lemma ReplaceLiteralBySelf(s: string, target: string)
    ensures ReplaceLiteral(s, target, target) == s
  {
    if |target| == 0 {
      InsertEmpty(s);
    } else {
      ReplaceAllBySelf(s, target);
    }
  }

  /** Inserting nothing around the characters changes nothing. */
  lemma {:induction false} InsertEmpty(s: string)
    ensures InsertAround(s, "") == s
    decreases |s|
  {
    if s != [] {
      InsertEmpty(s[1..]);
    }
  }

  /** `ReplaceAll` of a target by itself changes nothing. */
  lemma {:induction false} ReplaceAllBySelf(s: string, target: string)
    requires |target| > 0
    ensures ReplaceAll(s, target, target) == s
    decreases |s|
  {
    if |s| >= |target| {
      if s[..|target|] == target {
        ReplaceAllBySelf(s[|target|..], target);
        assert s == s[..|target|] + s[|target|..];
      } else {
        ReplaceAllBySelf(s[1..], target);
      }
    }
  }

  /* ---------------------------------------------------------------------
     String.split(" ")
     --------------------------------------------------------------------- */

  /** Split at every space, keeping empty pieces. */
  function SplitAll(s: string): (r: seq<string>)
    ensures |r| >= 1
    ensures forall i :: 0 <= i < |r| ==> ' ' !in r[i]
  {
    if s == [] then [[]]
    else if s[0] == ' ' then [[]] + SplitAll(s[1..])
    else
      var rest := SplitAll(s[1..]);
      [[s[0]] + rest[0]] + rest[1..]
  }

  /** Joining the pieces of `SplitAll` with single spaces restores the input. */
  function JoinSpaces(parts: seq<string>): string
    requires |parts| >= 1
  {
    if |parts| == 1 then parts[0] else parts[0] + " " + JoinSpaces(parts[1..])
  }

  lemma {:induction false} SplitAllRoundTrip(s: string)
    ensures JoinSpaces(SplitAll(s)) == s
  {
    if s != [] {
      SplitAllRoundTrip(s[1..]);
      var rest := SplitAll(s[1..]);
      if s[0] != ' ' && |rest| > 1 {
        assert JoinSpaces(rest) == rest[0] + " " + JoinSpaces(rest[1..]);
      }
    }
  }

  /** A word without spaces is one piece. */
  lemma {:induction false} SplitAllWord(w: string)
    requires ' ' !in w
    ensures SplitAll(w) == [w]
  {
    if w != [] {
      assert w[0] in w && forall c :: c in w[1..] ==> c in w;
      SplitAllWord(w[1..]);
      assert [w[0]] + w[1..] == w;
    }
  }

  /** A word followed by a space is the first piece. */
  lemma {:induction false} SplitAllWordThenSpace(w: string, rest: string)
    requires ' ' !in w
    ensures SplitAll(w + " " + rest) == [w] + SplitAll(rest)
  {
    var s := w + " " + rest;
    if w == [] {
      assert s == " " + rest && s[1..] == rest;
    } else {
      assert w[0] in w && forall c :: c in w[1..] ==> c in w;
      SplitAllWordThenSpace(w[1..], rest);
      assert s[1..] == w[1..] + " " + rest;
      assert s[0] == w[0];
      assert [w[0]] + w[1..] == w;
    }
  }

  function DropTrailingEmpty(parts: seq<string>): (r: seq<string>)
    ensures |r| <= |parts| && r == parts[..|r|]
    ensures |r| > 0 ==> r[|r| - 1] != []
    ensures forall i :: |r| <= i < |parts| ==> parts[i] == []
  {
    if |parts| > 0 && parts[|parts| - 1] == [] then DropTrailingEmpty(parts[..|parts| - 1]) else parts
  }

  /** `s.split(" ")`: a string without a space is returned whole (even when
      empty); otherwise the pieces, with trailing empty pieces removed. */
  function SplitSpace(s: string): (r: seq<string>)
    ensures forall i :: 0 <= i < |r| ==> ' ' !in r[i]
    ensures ' ' !in s ==> r == [s]
  {
    if ' ' !in s then [s] else DropTrailingEmpty(SplitAll(s))
  }

  /** Two words joined by one space split into the two words. */
  lemma SplitTwoWords(a: string, b: string)
    requires ' ' !in a && ' ' !in b && b != []
    ensures SplitSpace(a + " " + b) == [a, b]
  {
    var s := a + " " + b;
    assert s[|a|] == ' ';
    SplitAllWord(b);
    SplitAllWordThenSpace(a, b);
    assert [a] + [b] == [a, b];
  }

  /* ---------------------------------------------------------------------
     Integer.toString
     --------------------------------------------------------------------- */

  function DigitChar(d: nat): char
    requires d < 10
  {
    "0123456789"[d]
  }

  function NatToString(n: nat): (r: string)
    ensures |r| >= 1
    decreases n
  {
    if n < 10 then [DigitChar(n)] else NatToString(n / 10) + [DigitChar(n % 10)]
  }

  /** `Integer.toString(n)` */
  function IntToString(n: int): string {
    if n < 0 then "-" + NatToString(-n) else NatToString(n)
  }

  /** The value of a decimal digit character. */
  function DigitValue(c: char): nat {
    if '0' <= c <= '9' then c as int - '0' as int else 0
  }

  /** `Integer.parseInt` on a string of decimal digits. */
  function ParseNat(s: string): nat
    decreases |s|
  {
    if s == [] then 0 else ParseNat(s[..|s| - 1]) * 10 + DigitValue(s[|s| - 1])
  }

  /** `Integer.parseInt`, with an optional leading minus. */
  function ParseInt(s: string): int {
    var magnitude: int := if |s| > 0 && s[0] == '-' then ParseNat(s[1..]) else ParseNat(s);
    if |s| > 0 && s[0] == '-' then -magnitude else magnitude
  }

  /** Reading back the digits of a number gives the number. */
  lemma {:induction false} NatToStringRoundTrip(n: nat)
    ensures ParseNat(NatToString(n)) == n
    ensures NatToString(n)[0] != '-'
    decreases n
  {
    var r := NatToString(n);
    DigitRoundTrip(n % 10);
    if n >= 10 {
      NatToStringRoundTrip(n / 10);
      assert r[..|r| - 1] == NatToString(n / 10);
    }
  }

  /** A digit character reads back as its digit. */
  lemma DigitRoundTrip(d: nat)
    requires d < 10
    ensures DigitValue(DigitChar(d)) == d && DigitChar(d) != '-'
  {
  }

  /** Reading back `Integer.toString(n)` gives `n`. */
  lemma IntToStringRoundTrip(n: int)
    ensures ParseInt(IntToString(n)) == n
  {
    if n < 0 {
      var m: nat := -n;
      var d := NatToString(m);
      NatToStringRoundTrip(m);
      ParseIntMinus(d);
      assert IntToString(n) == "-" + d;
    } else {
      var d := NatToString(n);
      NatToStringRoundTrip(n);
      ParseIntPlain(d);
      assert IntToString(n) == d;
    }
  }

  /** A leading minus negates the digits after it. */
  lemma ParseIntMinus(d: string)
    ensures ParseInt("-" + d) == -(ParseNat(d) as int)
  {
    assert ("-" + d)[1..] == d;
  }

  /** Without a leading minus the digits are read as they are. */
  lemma ParseIntPlain(d: string)
    requires |d| > 0 && d[0] != '-'
    ensures ParseInt(d) == ParseNat(d)
  {
  }

  /** Different numbers have different decimal forms. */
  lemma IntToStringInjective()
    ensures forall a, b :: IntToString(a) == IntToString(b) ==> a == b
  {
    forall a, b | IntToString(a) == IntToString(b) ensures a == b {
      IntToStringRoundTrip(a);
      IntToStringRoundTrip(b);
    }
  }
}
