/** The parts of the expected-result extraction that do not need the NLP
    pipeline: the final clean-up of a result text, the search for an
    infinitive "to", and the test for a plural noun after the verb. */
module ResultUtils {
  import opened Wrappers
  import opened Strings
  import opened Parses

  /** The characters the clean-up strips from the end. */
  const TrailingJunk: set<char> := {',', ' ', '-'}

  /** `while (s.endsWith(",") || s.endsWith(" ") || s.endsWith("-"))` drop
      the last character. */
  function StripTrailingJunk(s: string): (r: string)
    ensures StartsWith(s, r)
    ensures |r| > 0 ==> r[|r| - 1] !in TrailingJunk
    ensures forall i :: |r| <= i < |s| ==> s[i] in TrailingJunk
    decreases |s|
  {
    if |s| > 0 && s[|s| - 1] in TrailingJunk then StripTrailingJunk(s[..|s| - 1]) else s
  }

  /** `sanitizeResultString`: " , " becomes " " in one left-to-right pass,
      every run of `\s` becomes one space, leading `\s` goes, and trailing
      commas, spaces and hyphens go. A final period stays. */
  function Sanitize(s: string): (r: string)
    ensures NoDoubleSpace(r) && OnlyPlainSpaces(r)
    ensures |r| > 0 ==> !IsRegexSpace(r[0]) && r[|r| - 1] !in TrailingJunk
  {
    var collapsed := CollapseSpaces(ReplaceLiteral(s, " , ", " "));
    var trimmed := TrimLeadingSpaces(collapsed);
    InfixKeepsSpacing(collapsed, |collapsed| - |trimmed|, |collapsed|);
    assert collapsed[|collapsed| - |trimmed|..|collapsed|] == trimmed;
    var r := StripTrailingJunk(trimmed);
    InfixKeepsSpacing(trimmed, 0, |r|);
    assert trimmed[..|r|] == r;
    r
  }

  /** Any piece of a singly, plainly spaced text is singly, plainly
      spaced. */
  lemma InfixKeepsSpacing(s: string, a: int, b: int)
    requires NoDoubleSpace(s) && OnlyPlainSpaces(s) && 0 <= a <= b <= |s|
    ensures NoDoubleSpace(s[a..b]) && OnlyPlainSpaces(s[a..b])
  {
    var t := s[a..b];
    forall i | 0 <= i < |t| ensures !DoubleSpaceAt(t, i) {
      assert !DoubleSpaceAt(s, a + i);
      if i < |t| - 1 {
        assert t[i] == s[a + i] && t[i + 1] == s[a + i + 1];
      }
    }
    forall i | 0 <= i < |t| ensures IsRegexSpace(t[i]) ==> t[i] == ' ' {
      assert t[i] == s[a + i];
    }
  }

  /** The clean-up keeps the words: apart from `\s`, its result is the text
      after the " , " pass, except that trailing commas and hyphens may be
      dropped, and nothing else. */
  lemma SanitizeKeepsWords(s: string)
    ensures var t := Without(ReplaceLiteral(s, " , ", " "), RegexSpaces);
      var w := Without(Sanitize(s), RegexSpaces);
      StartsWith(t, w) && forall i :: |w| <= i < |t| ==> t[i] in {',', '-'}
  {
    var t := ReplaceLiteral(s, " , ", " ");
    var collapsed := CollapseSpaces(t);
    var trimmed := TrimLeadingSpaces(collapsed);
    WithoutSkip(collapsed, |collapsed| - |trimmed|, RegexSpaces);
    assert Without(trimmed, RegexSpaces) == Without(t, RegexSpaces);
    assert Sanitize(s) == StripTrailingJunk(trimmed);
    JunkStripKeepsWords(trimmed);
  }

  /** Stripping trailing junk drops, apart from `\s`, only commas and
      hyphens at the end. */
  lemma JunkStripKeepsWords(x: string)
    ensures var t := Without(x, RegexSpaces);
      var w := Without(StripTrailingJunk(x), RegexSpaces);
      StartsWith(t, w) && forall i :: |w| <= i < |t| ==> t[i] in {',', '-'}
  {
    var r := StripTrailingJunk(x);
    var tail := x[|r|..];
    assert x == r + tail;
    WithoutAppend(r, tail, RegexSpaces);
    WithoutWithin(tail, RegexSpaces, TrailingJunk);
    var w, wt := Without(r, RegexSpaces), Without(tail, RegexSpaces);
    assert (w + wt)[..|w|] == w;
    forall i | |w| <= i < |w + wt| ensures (w + wt)[i] in {',', '-'} {
      assert (w + wt)[i] == wt[i - |w|];
    }
  }

  /** A base-form verb right after an infinitival "to" at the 0-based
      position `i`. */
  predicate InfinitiveAt(tags: seq<string>, i: int) {
    1 <= i < |tags| && tags[i] == "VB" && tags[i - 1] == "TO"
  }

  /** The same with an adverb between "to" and the verb. */
  predicate InfinitiveWithAdverbAt(tags: seq<string>, i: int) {
    2 <= i < |tags| && tags[i] == "VB" && tags[i - 1] == "RB" && tags[i - 2] == "TO"
  }

  /** `getInfinitiveToWord`: the 1-based index of the first verb of that
      kind, or `None` where the source returns `null`. */
  method InfinitiveToWord(tags: seq<string>) returns (r: Option<nat>)
    ensures r.Some? ==> InfinitiveAt(tags, r.value - 1)
    ensures r.Some? ==> forall i :: 0 <= i < r.value - 1 ==> !InfinitiveAt(tags, i)
    ensures r.None? <==> forall i :: 0 <= i < |tags| ==> !InfinitiveAt(tags, i)
  {
    var i := 1;
    while i < |tags|
      invariant 1 <= i <= |tags| || |tags| == 0
      invariant forall k :: 0 <= k < i ==> !InfinitiveAt(tags, k)
    {
      if tags[i] == "VB" && tags[i - 1] == "TO" {
        assert InfinitiveAt(tags, i);
        return Some(i + 1);
      }
      i := i + 1;
    }
    return None;
  }

  /** `getInfinitiveToWordWithAdverb`: the 1-based index of the first verb
      preceded by "to" and an adverb, or `None`. */
  method InfinitiveToWordWithAdverb(tags: seq<string>) returns (r: Option<nat>)
    ensures r.Some? ==> InfinitiveWithAdverbAt(tags, r.value - 1)
    ensures r.Some? ==> forall i :: 0 <= i < r.value - 1 ==> !InfinitiveWithAdverbAt(tags, i)
    ensures r.None? <==> forall i :: 0 <= i < |tags| ==> !InfinitiveWithAdverbAt(tags, i)
  {
    var i := 2;
    while i < |tags|
      invariant 2 <= i <= |tags| || |tags| < 2
      invariant forall k :: 0 <= k < i ==> !InfinitiveWithAdverbAt(tags, k)
    {
      if tags[i] == "VB" && tags[i - 1] == "RB" && tags[i - 2] == "TO" {
        assert InfinitiveWithAdverbAt(tags, i);
        return Some(i + 1);
      }
      i := i + 1;
    }
    return None;
  }

  /** A child of the verb that counts as a plural noun: tagged NN...S, not
      the word "details" in any case, and after the verb. */
  predicate PluralNounChild(s: Sentence, verb: nat, child: nat)
    requires WellFormed(s) && IsNode(s, child)
  {
    var t := s.tokens[child - 1];
    StartsWith(t.pos, "NN") && EndsWith(t.pos, "S") && !EqualsIgnoreCase(t.word, "details") && child > verb
  }

  /** `childIsPluralNoun`: the children are scanned in order and the first
      plural noun after the verb answers true. */
  method ChildIsPluralNoun(s: Sentence, verb: nat) returns (r: bool)
    requires WellFormed(s)
    ensures r <==> exists c :: IsNode(s, c) && s.head[c - 1] == verb && PluralNounChild(s, verb, c)
  {
    var children := Children(s, verb);
    var i := 0;
    while i < |children|
      invariant 0 <= i <= |children|
      invariant forall k :: 0 <= k < i ==> !PluralNounChild(s, verb, children[k])
    {
      if PluralNounChild(s, verb, children[i]) {
        return true;
      }
      i := i + 1;
    }
    r := false;
    forall c | IsNode(s, c) && s.head[c - 1] == verb ensures !PluralNounChild(s, verb, c) {
      assert c in children;
    }
  }

  /* ---------------------------------------------------------------------
     Properties
     --------------------------------------------------------------------- */

  /** What the clean-up guarantees of its result. */
  predicate Clean(t: string) {
    NoDoubleSpace(t) && OnlyPlainSpaces(t)
    && (|t| > 0 ==> !IsRegexSpace(t[0]) && t[|t| - 1] !in TrailingJunk)
  }

  /** When the " , " pass already leaves a clean text, the later steps
      change nothing. */
  lemma SanitizeAfterPass(s: string)
    requires Clean(ReplaceLiteral(s, " , ", " "))
    ensures Sanitize(s) == ReplaceLiteral(s, " , ", " ")
  {
    var t := ReplaceLiteral(s, " , ", " ");
    CollapseSpacesIdentity(t);
    assert TrimLeadingSpaces(t) == t;
    assert StripTrailingJunk(t) == t;
    assert Sanitize(s) == StripTrailingJunk(TrimLeadingSpaces(CollapseSpaces(t)));
  }

  /** A clean text without " , " is its own clean-up. */
  lemma SanitizeIdentity(s: string)
    requires Clean(s) && forall k :: !OccursAt(" , ", s, k)
    ensures Sanitize(s) == s
  {
    ReplaceLiteralAbsent(s, " , ", " ");
    SanitizeAfterPass(s);
  }

  /** The clean-up of "a , , b" still holds " , ", since the single pass
      resumes after the replaced match; a second clean-up removes it. */
  lemma SanitizeCommaExample()
    ensures Sanitize("a , , b") == "a , b"
    ensures Sanitize(Sanitize("a , , b")) == "a b"
  {
    CommaPassExample();
    CleanExamples();
    SanitizeAfterPass("a , , b");
    CommaPassOnceMore();
    SanitizeAfterPass("a , b");
  }

  /** "a , b" and "a b" are clean. */
  lemma CleanExamples()
    ensures Clean("a , b") && Clean("a b")
  {
  }

  /** One pass over "a , , b" replaces the first " , " only. */
  lemma CommaPassExample()
    ensures ReplaceLiteral("a , , b", " , ", " ") == "a , b"
  {
    var t := " , ";
    var s := "a , , b";
    assert ReplaceAll("b", t, " ") == "b";
    assert ", b"[..3] != t by { assert ", b"[0] == ','; }
    assert ", b"[1..] == " b";
    assert " b"[1..] == "b";
    assert ReplaceAll(" b", t, " ") == " b";
    assert ReplaceAll(", b", t, " ") == ", b";
    assert s[1..][..3] == t && s[1..][3..] == ", b";
    assert ReplaceAll(s[1..], t, " ") == " , b";
    assert s[..3] != t by { assert s[0] == 'a'; }
    assert ReplaceAll(s, t, " ") == "a" + " , b";
  }

  /** A pass over "a , b" replaces its " , ". */
  lemma CommaPassOnceMore()
    ensures ReplaceLiteral("a , b", " , ", " ") == "a b"
  {
    var t := " , ";
    var s := "a , b";
    assert ReplaceAll("b", t, " ") == "b";
    assert s[1..][..3] == t && s[1..][3..] == "b";
    assert ReplaceAll(s[1..], t, " ") == " b";
    assert s[..3] != t by { assert s[0] == 'a'; }
    assert ReplaceAll(s, t, " ") == "a" + " b";
  }

  /** A final period survives the clean-up. */
  lemma SanitizeKeepsPeriod()
    ensures Sanitize("done.") == "done."
  {
    var s := "done.";
    NoSpaceNoComma(s);
    assert Clean(s);
    SanitizeIdentity(s);
  }

  /** A text without spaces holds no " , ". */
  lemma NoSpaceNoComma(s: string)
    requires forall i :: 0 <= i < |s| ==> s[i] != ' '
    ensures forall k :: !OccursAt(" , ", s, k)
  {
    forall k ensures !OccursAt(" , ", s, k) {
      if 0 <= k && k + 3 <= |s| {
        assert s[k..k + 3][0] == s[k];
      }
    }
  }
}
