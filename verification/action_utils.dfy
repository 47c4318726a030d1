/** The parts of action extraction that read the parse as data: "as soon
    as", the first word of a duration, the presence of a verb, where an
    action ends, and an action taken from a "to click" interaction. */
module ActionUtils {
  import opened Wrappers
  import opened Strings
  import opened Parses
  import opened JavaInts
  import opened Criteria

  /* ---------------------------------------------------------------------
     "as soon as"
     --------------------------------------------------------------------- */

  /** `isAsSoonAs`: the words at the 1-based positions `i - 2`, `i - 1`
      and `i` read "as soon as" in any case. The nodes are fetched from `i`
      downwards and only as long as the words match, so a missing node is
      an error only when every word above it matched. */
  function IsAsSoonAs(s: Sentence, i: int): (r: Result<bool>)
    ensures r == Success(true) <==>
      IsNode(s, i - 2) && IsNode(s, i) && EqualsIgnoreCase(s.tokens[i - 3].word, "as")
      && EqualsIgnoreCase(s.tokens[i - 2].word, "soon") && EqualsIgnoreCase(s.tokens[i - 1].word, "as")
    ensures r.Failure? <==>
      !IsNode(s, i)
      || (EqualsIgnoreCase(s.tokens[i - 1].word, "as")
          && (!IsNode(s, i - 1) || (EqualsIgnoreCase(s.tokens[i - 2].word, "soon") && !IsNode(s, i - 2))))
    ensures r.Failure? ==> r.error == NoSuchNode
  {
    if !IsNode(s, i) then Failure(NoSuchNode)
    else if !EqualsIgnoreCase(s.tokens[i - 1].word, "as") then Success(false)
    else if !IsNode(s, i - 1) then Failure(NoSuchNode)
    else if !EqualsIgnoreCase(s.tokens[i - 2].word, "soon") then Success(false)
    else if !IsNode(s, i - 2) then Failure(NoSuchNode)
    else Success(EqualsIgnoreCase(s.tokens[i - 3].word, "as"))
  }

  /* ---------------------------------------------------------------------
     Durations
     --------------------------------------------------------------------- */

  /** The named-entity tag of a duration. */
  const Duration := "DURATION"

  /** From the 0-based index `idx`, step back while the tag before it is a
      duration: the result is the first index of that run. Reading before
      the start of the list, or past its end, throws. */
  function DurationStart(ner: seq<string>, idx: int): (r: Result<int>)
    ensures r.Success? ==> 1 <= r.value <= idx <= |ner| && ner[r.value - 1] != Duration
    ensures r.Success? ==> forall k :: r.value <= k < idx ==> ner[k] == Duration
    ensures r.Failure? <==> idx > |ner| || forall k :: 0 <= k < idx ==> ner[k] == Duration
    ensures r.Failure? ==> r.error == IndexOutOfBounds
    decreases idx
  {
    if idx - 1 < 0 || idx - 1 >= |ner| then Failure(IndexOutOfBounds)
    else if ner[idx - 1] == Duration then DurationStart(ner, idx - 1)
    else Success(idx)
  }

  /** `getBeginIndexOfDuration`: the 1-based index of the first word of the
      duration that ends just before the starter at the 1-based `starter`.
      The word right before the starter belongs to it unread; the words
      before that belong to it while they are tagged as a duration. */
  function BeginIndexOfDuration(s: Sentence, starter: int): (r: Result<int>)
    ensures r.Success? ==> 2 <= r.value <= starter - 1 <= |s.tokens| + 1 && s.tokens[r.value - 2].ner != Duration
    ensures r.Success? ==> forall k :: r.value - 1 <= k < starter - 2 ==> s.tokens[k].ner == Duration
    ensures r.Failure? <==> starter - 2 > |s.tokens| || forall k :: 0 <= k < starter - 2 ==> s.tokens[k].ner == Duration
  {
    match DurationStart(NerTags(s), starter - 2)
    case Failure(e) => Failure(e)
    case Success(k) => Success(k + 1)
  }

  /* ---------------------------------------------------------------------
     Verbs
     --------------------------------------------------------------------- */

  /** The mark the user-story parser leaves where it cut the text. */
  const CutMark := "[\U{2026}]"

  /** `verbInAction`, given the tags of the action words and of the root of
      the action: a verb tag among the words, or evidence that a verb was
      cut off or tagged as a plural noun. */
  method VerbInAction(tags: seq<string>, rootTag: string, action: string) returns (r: bool)
    ensures r <==> ((exists k :: 0 <= k < |tags| && StartsWith(tags[k], "VB"))
                    || EndsWith(action, CutMark) || (StartsWith(rootTag, "NN") && EndsWith(rootTag, "S")))
  {
    var i := 0;
    while i < |tags|
      invariant 0 <= i <= |tags|
      invariant forall k :: 0 <= k < i ==> !StartsWith(tags[k], "VB")
    {
      if StartsWith(tags[i], "VB") {
        return true;
      }
      i := i + 1;
    }
    r := EndsWith(action, CutMark) || (StartsWith(rootTag, "NN") && EndsWith(rootTag, "S"));
  }

  /* ---------------------------------------------------------------------
     The end of an action
     --------------------------------------------------------------------- */

  /** The action words are nodes of the sentence. */
  predicate AreNodes(s: Sentence, words: seq<nat>) {
    forall k :: 0 <= k < |words| ==> IsNode(s, words[k])
  }

  /** The token of the `k`-th action word. */
  function TokenOf(s: Sentence, words: seq<nat>, k: int): Token
    requires AreNodes(s, words) && 0 <= k < |words|
  {
    s.tokens[words[k] - 1]
  }

  /** The parenthesis depth after the first `k` action words. */
  function Depth(s: Sentence, words: seq<nat>, k: int): int
    requires AreNodes(s, words) && 0 <= k <= |words|
  {
    if k == 0 then 0
    else
      var t := TokenOf(s, words, k - 1);
      Depth(s, words, k - 1) + (if t.pos == "-LRB-" then 1 else if t.pos == "-RRB-" then -1 else 0)
  }

  /** The `k`-th action word ends the clause: a comma, or "that" as a
      preposition, outside every parenthesis. */
  predicate BreakAt(s: Sentence, words: seq<nat>, k: int)
    requires AreNodes(s, words) && 0 <= k < |words|
  {
    var t := TokenOf(s, words, k);
    t.pos != "-LRB-" && t.pos != "-RRB-" && Depth(s, words, k) == 0
    && (t.word == "," || (EqualsIgnoreCase(t.word, "that") && t.pos == "IN"))
  }

  /** The first clause break at or after position `k`, or `|words|`. */
  function FirstBreak(s: Sentence, words: seq<nat>, k: nat): (r: nat)
    requires AreNodes(s, words) && k <= |words|
    ensures k <= r <= |words|
    ensures r < |words| ==> BreakAt(s, words, r)
    ensures forall j :: k <= j < r ==> !BreakAt(s, words, j)
    decreases |words| - k
  {
    if k == |words| || BreakAt(s, words, k) then k else FirstBreak(s, words, k + 1)
  }

  /** The end before the parentheses are looked at: the last action word,
      capped before "so that" when the starter precedes it, and before the
      first clause break. */
  function ClauseEnd(s: Sentence, words: seq<nat>, starter: int, soThat: int): (r: int)
    requires AreNodes(s, words) && |words| > 0
    ensures r <= words[|words| - 1]
    ensures starter < soThat ==> r <= soThat - 1
    ensures FirstBreak(s, words, 0) < |words| ==> r <= words[FirstBreak(s, words, 0)] - 1
    ensures r == words[|words| - 1] || (starter < soThat && r == soThat - 1)
      || (FirstBreak(s, words, 0) < |words| && r == words[FirstBreak(s, words, 0)] - 1)
  {
    var last := words[|words| - 1];
    var capped := if starter < soThat then Min(last, soThat - 1) else last;
    var b := FirstBreak(s, words, 0);
    if b < |words| then Min(capped, words[b] - 1) else capped
  }

  /** The loop over the action words: where it breaks (or `|words|`) and the
      depth it reached. */
  method ScanActionWords(s: Sentence, words: seq<nat>) returns (stop: nat, depth: int)
    requires AreNodes(s, words)
    ensures stop == FirstBreak(s, words, 0)
    ensures depth == Depth(s, words, stop)
  {
    depth := 0;
    stop := 0;
    while stop < |words|
      invariant 0 <= stop <= |words|
      invariant depth == Depth(s, words, stop)
      invariant forall k :: 0 <= k < stop ==> !BreakAt(s, words, k)
    {
      var t := TokenOf(s, words, stop);
      if t.pos == "-LRB-" {
        depth := depth + 1;
      } else if t.pos == "-RRB-" {
        depth := depth - 1;
      } else if (t.word == "," || (EqualsIgnoreCase(t.word, "that") && t.pos == "IN")) && depth == 0 {
        assert BreakAt(s, words, stop);
        FirstBreakIsFirst(s, words, stop);
        return;
      }
      stop := stop + 1;
    }
    FirstBreakIsFirst(s, words, stop);
  }

  /** A position before which nothing breaks, and which breaks or is the end,
      is the first break. */
  lemma FirstBreakIsFirst(s: Sentence, words: seq<nat>, stop: nat)
    requires AreNodes(s, words) && stop <= |words|
    requires stop < |words| ==> BreakAt(s, words, stop)
    requires forall k :: 0 <= k < stop ==> !BreakAt(s, words, k)
    ensures FirstBreak(s, words, 0) == stop
  {
  }

  /** How many of the tags in `pos[a..b]` close a parenthesis. */
  function Closings(pos: seq<string>, a: int, b: int): (r: nat)
    requires 0 <= a <= b <= |pos|
    ensures r <= b - a
    decreases b - a
  {
    if a == b then 0 else Closings(pos, a, b - 1) + (if pos[b - 1] == "-RRB-" then 1 else 0)
  }

  /** An opening parenthesis right after the 1-based end `e`. */
  predicate OpensAfter(pos: seq<string>, e: int) {
    0 <= e < |pos| && pos[e] == "-LRB-"
  }

  /** `end` is where the action stops once the parentheses are looked at:
      after an opening parenthesis right after `e` joins, and, while some
      parenthesis is open, at the first tag that closes the last of them, or
      at the end of the sentence. A negative `e` has no end. */
  predicate ParensClosed(pos: seq<string>, e: int, depth: int, end: int) {
    var e1 := if OpensAfter(pos, e) then e + 1 else e;
    var d1 := if OpensAfter(pos, e) then depth + 1 else depth;
    0 <= e
    && (d1 <= 0 || e1 >= |pos| ==> end == e1)
    && (d1 > 0 && e1 < |pos| ==>
          e1 < end <= |pos| && Closings(pos, e1, end) <= d1
          && (end < |pos| ==> Closings(pos, e1, end) == d1)
          && forall m :: e1 <= m < end ==> Closings(pos, e1, m) < d1)
  }

  /** The stopping rule leaves one end only. */
  lemma ParensClosedUnique(pos: seq<string>, e: int, depth: int, end1: int, end2: int)
    requires ParensClosed(pos, e, depth, end1) && ParensClosed(pos, e, depth, end2)
    ensures end1 == end2
  {
    var e1 := if OpensAfter(pos, e) then e + 1 else e;
    var d1 := if OpensAfter(pos, e) then depth + 1 else depth;
    if d1 > 0 && e1 < |pos| {
      // each end's count of closings, against the other end's bound
      var c1, c2 := Closings(pos, e1, end1), Closings(pos, e1, end2);
    }
  }

  /** The last part of `determineActionEndIndex`: an opening parenthesis
      right after the end joins the action, and the end then moves on until
      every open parenthesis is closed or the sentence ends. */
  method CloseParens(pos: seq<string>, e: int, depth: int) returns (r: Result<int>)
    ensures r.Failure? <==> e < 0
    ensures r.Failure? ==> r.error == IndexOutOfBounds
    ensures r.Success? ==> ParensClosed(pos, e, depth, r.value)
  {
    if e < |pos| && e < 0 {
      return Failure(IndexOutOfBounds);
    }
    var end := e;
    var d := depth;
    if end < |pos| && pos[end] == "-LRB-" {
      end := end + 1;
      d := d + 1;
    }
    ghost var e1 := end;
    ghost var d1 := d;
    while end < |pos| && d > 0
      invariant e1 <= end && (end > e1 ==> end <= |pos|)
      invariant end > e1 ==> d == d1 - Closings(pos, e1, end)
      invariant end == e1 ==> d == d1
      invariant forall m :: e1 <= m < end ==> Closings(pos, e1, m) < d1
    {
      end := end + 1;
      if pos[end - 1] == "-RRB-" {
        d := d - 1;
      }
    }
    return Success(end);
  }

  /** `determineActionEndIndex`, with the action words given by their
      1-based indices: the clause end, then the parentheses. An empty list of
      action words, or a negative end, throws. */
  method DetermineActionEndIndex(s: Sentence, words: seq<nat>, starter: int, soThat: int) returns (r: Result<int>)
    requires AreNodes(s, words)
    ensures r.Failure? <==> |words| == 0 || ClauseEnd(s, words, starter, soThat) < 0
    ensures r.Success? ==> ClauseEnd(s, words, starter, soThat) <= r.value
    ensures r.Success? ==>
      ParensClosed(PosTags(s), ClauseEnd(s, words, starter, soThat), Depth(s, words, FirstBreak(s, words, 0)), r.value)
    ensures r.Success? && r.value != ClauseEnd(s, words, starter, soThat) ==>
      r.value <= |s.tokens|
      && (OpensAfter(PosTags(s), ClauseEnd(s, words, starter, soThat)) || Depth(s, words, FirstBreak(s, words, 0)) > 0)
  {
    if |words| == 0 {
      return Failure(IndexOutOfBounds);
    }
    var e := words[|words| - 1];
    if starter < soThat {
      e := Min(e, soThat - 1);
    }
    var stop, depth := ScanActionWords(s, words);
    if stop < |words| {
      e := Min(e, words[stop] - 1);
    }
    assert e == ClauseEnd(s, words, starter, soThat);
    r := CloseParens(PosTags(s), e, depth);
  }

  /* ---------------------------------------------------------------------
     Interactions
     --------------------------------------------------------------------- */

  /** The 1-based index of the first of the first `n` tokens that begins at
      or after `position`, or `Integer.MAX_VALUE`: a minimum over the
      tokens. */
  function FirstBeginAtOrAfter(s: Sentence, position: int, n: nat): (r: int)
    requires n <= |s.tokens| <= MaxInt
    ensures (r == MaxInt && forall k :: 0 <= k < n ==> s.tokens[k].begin < position)
      || (1 <= r <= n && s.tokens[r - 1].begin >= position && forall k :: 0 <= k < r - 1 ==> s.tokens[k].begin < position)
  {
    if n == 0 then MaxInt
    else
      var r := FirstBeginAtOrAfter(s, position, n - 1);
      if s.tokens[n - 1].begin >= position then Min(r, n) else r
  }

  /** The 1-based index of the last of the first `n` tokens that ends at or
      before `position`, or 0: a maximum over the tokens. */
  function LastEndAtOrBefore(s: Sentence, position: int, n: nat): (r: int)
    requires n <= |s.tokens|
    ensures (r == 0 && forall k :: 0 <= k < n ==> s.tokens[k].end > position)
      || (1 <= r <= n && s.tokens[r - 1].end <= position && forall k :: r <= k < n ==> s.tokens[k].end > position)
  {
    if n == 0 then 0
    else
      var r := LastEndAtOrBefore(s, position, n - 1);
      if s.tokens[n - 1].end <= position then Max(r, n) else r
  }

  /** `getIndexFromPosition`, over every token of the sentence. */
  function IndexFromPosition(s: Sentence, position: int, isBegin: bool): (r: int)
    requires |s.tokens| <= MaxInt
    ensures isBegin ==>
      (r == MaxInt && forall k :: 0 <= k < |s.tokens| ==> s.tokens[k].begin < position)
      || (1 <= r <= |s.tokens| && s.tokens[r - 1].begin >= position && forall k :: 0 <= k < r - 1 ==> s.tokens[k].begin < position)
    ensures !isBegin ==>
      (r == 0 && forall k :: 0 <= k < |s.tokens| ==> s.tokens[k].end > position)
      || (1 <= r <= |s.tokens| && s.tokens[r - 1].end <= position && forall k :: r <= k < |s.tokens| ==> s.tokens[k].end > position)
  {
    if isBegin then FirstBeginAtOrAfter(s, position, |s.tokens|) else LastEndAtOrBefore(s, position, |s.tokens|)
  }

  /** The phrase that marks an interaction. */
  const ToClick := "to click"

  /** Where the clicked thing starts: after "to click" and a space. */
  function InteractionBegin(text: string): nat {
    IndexOf(ToLower(text), ToClick) + |ToClick + " "|
  }

  /** Where the clicked thing ends: at the first " to " or " and " from its
      start, or -1. The source takes the larger position when only one was
      found and the smaller when both were. */
  function InteractionEnd(text: string): (r: int)
    ensures var lower := ToLower(text); var b := InteractionBegin(text);
      r == -1 <==> forall k :: b <= k ==> !OccursAt(" to ", lower, k) && !OccursAt(" and ", lower, k)
    ensures var lower := ToLower(text); var b := InteractionBegin(text);
      r != -1 ==> (b <= r && r + 4 <= |text| && (OccursAt(" to ", lower, r) || OccursAt(" and ", lower, r))
                   && forall k :: b <= k < r ==> !OccursAt(" to ", lower, k) && !OccursAt(" and ", lower, k))
  {
    var lower := ToLower(text);
    var b := InteractionBegin(text);
    var atTo := IndexOfFrom(lower, " to ", b);
    var atAnd := IndexOfFrom(lower, " and ", b);
    if (atTo == -1) != (atAnd == -1) then Max(atTo, atAnd) else Min(atTo, atAnd)
  }

  /** `extractActionFromInteraction`: no criterion without "to click" in any
      case or without an end; otherwise one action, "the user clicks" and the
      clicked thing without trailing commas, spanning the words from "click"
      to the word that ends the interaction. */
  function ExtractActionFromInteraction(s: Sentence, text: string): (r: seq<Criterion>)
    requires |s.tokens| <= MaxInt
    ensures |r| <= 1
    ensures |r| == 1 <==> Contains(ToLower(text), ToClick) && InteractionEnd(text) != -1
    ensures |r| == 1 ==> r[0].kind == Action && StartsWith(r[0].raw, "the user clicks ")
    ensures |r| == 1 ==> (!EndsWith(r[0].raw, ",")
                          && StartsWith(text[InteractionBegin(text)..InteractionEnd(text)], r[0].raw[|"the user clicks "|..]))
    ensures |r| == 1 ==> forall i :: InteractionBegin(text) + |r[0].raw| - |"the user clicks "| <= i < InteractionEnd(text) ==>
                           text[i] == ','
    ensures |r| == 1 ==> (r[0].begin == IndexFromPosition(s, InteractionBegin(text) - |"click "|, true)
                          && r[0].end == IndexFromPosition(s, InteractionEnd(text) + |" and"|, false))
  {
    if !Contains(ToLower(text), ToClick) then []
    else
      var b := InteractionBegin(text);
      var e := InteractionEnd(text);
      if e == -1 then [] else [ClickCriterion(s, text, b, e)]
  }

  /** The one action of an interaction whose clicked thing spans `[b, e)`
      of the text: that text with only its trailing commas dropped. */
  function ClickCriterion(s: Sentence, text: string, b: int, e: int): (c: Criterion)
    requires |s.tokens| <= MaxInt && 0 <= b <= e <= |text|
    ensures c.kind == Action && StartsWith(c.raw, "the user clicks ") && !EndsWith(c.raw, ",")
    ensures StartsWith(text[b..e], c.raw[|"the user clicks "|..])
    ensures forall i :: b + |c.raw| - |"the user clicks "| <= i < e ==> text[i] == ','
    ensures c.begin == IndexFromPosition(s, b - |"click "|, true) && c.end == IndexFromPosition(s, e + |" and"|, false)
  {
    var clicked := StripTrailing(text[b..e], ',');
    var raw := "the user clicks " + clicked;
    assert raw[|"the user clicks "|..] == clicked;
    assert raw[|raw| - 1] == if clicked == [] then ' ' else clicked[|clicked| - 1];
    Criterion(raw, Action, IndexFromPosition(s, b - |"click "|, true), IndexFromPosition(s, e + |" and"|, false))
  }

  /* ---------------------------------------------------------------------
     Examples
     --------------------------------------------------------------------- */

  /** "as Soon AS it loads" */
  const AsSoonAsIt := Sentence(
    [Token("as", "RB", "O", 0, 2), Token("Soon", "RB", "O", 3, 7), Token("AS", "IN", "O", 8, 10),
     Token("it", "PRP", "O", 11, 13), Token("loads", "VBZ", "O", 14, 19)],
    [2, 5, 5, 5, 0],
    ["advmod", "advmod", "mark", "nsubj", "root"])

  /** The phrase is found in any case at the second "as"; at another word
      it is not; an "as" at the start, or a position past the end, makes the
      node lookup fail. */
  lemma AsSoonAsExample()
    ensures IsAsSoonAs(AsSoonAsIt, 3) == Success(true)
    ensures IsAsSoonAs(AsSoonAsIt, 1) == Failure(NoSuchNode)
    ensures IsAsSoonAs(AsSoonAsIt, 4) == Success(false)
    ensures IsAsSoonAs(AsSoonAsIt, 6) == Failure(NoSuchNode)
  {
    assert ToLower("AS") == "as" && ToLower("Soon") == "soon";
    assert ToLower("it") != ToLower("as") by { assert ToLower("it")[0] == 'i'; }
  }

  /** Two duration words before the word that precedes the starter. */
  const DurationTags: seq<string> := ["O", "DURATION", "DURATION", "O", "O"]

  /** Stepping back from the word before the starter stops at the first
      word of the duration; with only durations before it, the lookup
      reads before the list. */
  lemma DurationExample()
    ensures DurationStart(DurationTags, 3) == Success(1)
    ensures DurationStart(["DURATION", "DURATION"], 2) == Failure(IndexOutOfBounds)
  {
  }

  /** "to click it, and go", with its tokens. */
  const ClickText := "to click it, and go"
  const ClickSentence := Sentence(
    [Token("to", "TO", "O", 0, 2), Token("click", "VB", "O", 3, 8), Token("it", "PRP", "O", 9, 11),
     Token(",", ",", "O", 11, 12), Token("and", "CC", "O", 13, 16), Token("go", "VB", "O", 17, 19)],
    [2, 0, 2, 6, 6, 2],
    ["mark", "root", "obj", "punct", "cc", "conj"])

  /** The clicked thing runs from after "to click " to " and ", loses its
      comma, and the criterion spans "click" to "and". */
  lemma ClickExample()
    ensures ExtractActionFromInteraction(ClickSentence, ClickText) == [Criterion("the user clicks it", Action, 2, 5)]
  {
    ClickSpan();
    ClickIndices();
    ClickedIt();
    assert "the user clicks " + "it" == "the user clicks it";
    assert ClickCriterion(ClickSentence, ClickText, 9, 12) == Criterion("the user clicks it", Action, 2, 5);
  }

  /** The text between "to click " and " and " in the example, without its
      comma. */
  lemma ClickedIt()
    ensures StripTrailing(ClickText[9..12], ',') == "it"
  {
    assert ClickText[9..12] == "it,";
    assert "it,"[..2] == "it";
  }

  /** In the example text the clicked thing starts at 9 and ends at 12. */
  lemma ClickSpan()
    ensures Contains(ToLower(ClickText), ToClick)
    ensures InteractionBegin(ClickText) == 9 && InteractionEnd(ClickText) == 12
  {
    var t := ClickText;
    ClickLower(t);
    ClickFound(t);
    ClickNoTo(t);
    ClickAnd(t);
  }

  lemma ClickLower(t: string)
    requires t == ClickText
    ensures ToLower(t) == t
  {
    forall i | 0 <= i < |t| ensures Lower(t[i]) == t[i] {
      assert !('A' <= t[i] <= 'Z');
    }
  }

  lemma ClickFound(t: string)
    requires t == ClickText
    ensures IndexOf(t, ToClick) == 0
  {
    assert t[..8] == ToClick;
  }

  lemma ClickNoTo(t: string)
    requires t == ClickText
    ensures forall k :: 9 <= k ==> !OccursAt(" to ", t, k)
  {
    forall k | 9 <= k ensures !OccursAt(" to ", t, k) {
      if k + 4 <= |t| {
        assert t[k..k + 4][0] == t[k] && t[k..k + 4][1] == t[k + 1];
      }
    }
  }

  lemma ClickAnd(t: string)
    requires t == ClickText
    ensures IndexOfFrom(t, " and ", 9) == 12
  {
    assert OccursAt(" and ", t, 12);
    forall k | 9 <= k < 12 ensures !OccursAt(" and ", t, k) {
      assert t[k..k + 5][0] == t[k];
    }
  }

  /** "click" is the first token from position 3 on, and "and" the last one
      ending by position 16. */
  lemma ClickIndices()
    ensures IndexFromPosition(ClickSentence, 3, true) == 2
    ensures IndexFromPosition(ClickSentence, 16, false) == 5
  {
  }
}
