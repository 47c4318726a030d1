/** Postprocessing of generated acceptance criteria: cutting a criterion
    where the next one starts inside it, and replacing the description of
    the user interface by a fixed phrase. */
module Postprocessing {
  import opened Wrappers
  import opened Strings
  import opened JavaInts
  import opened Criteria
  import opened SharedUtils

  /** The phrase that stands for the UI description. */
  const ActiveUserInterface := "the active user interface"

  /** `s` ends with `w`; with `whole`, also `w` is a whole word there, so
      either `w` is all of `s` or a space precedes it. */
  predicate EndsWithStarter(s: string, w: string, whole: bool) {
    EndsWith(s, w) && (!whole || |s| == |w| || s[|s| - |w| - 1] == ' ')
  }

  /** The index of the first starter that `s` ends with, in list order. */
  function FirstStarter(s: string, starters: seq<string>, whole: bool): (r: Option<nat>)
    ensures r.Some? ==> r.value < |starters| && EndsWithStarter(s, starters[r.value], whole)
    ensures r.Some? ==> forall j :: 0 <= j < r.value ==> !EndsWithStarter(s, starters[j], whole)
    ensures r.None? <==> forall j :: 0 <= j < |starters| ==> !EndsWithStarter(s, starters[j], whole)
  {
    if starters == [] then None
    else if EndsWithStarter(s, starters[0], whole) then Some(0)
    else
      match FirstStarter(s, starters[1..], whole)
      case None => None
      case Some(j) => Some(j + 1)
  }

  /** The other criterion starts before this one ends, and its words occur in
      this one's. */
  predicate Overlaps(ac: Criterion, other: Criterion) {
    other.begin < ac.end && IndexOf(ac.raw, other.raw) != -1
  }

  /** This criterion's words up to the other's first occurrence, without the
      trailing spaces. */
  function TextBefore(ac: Criterion, other: Criterion): (t: string)
    requires Overlaps(ac, other)
    ensures StartsWith(ac.raw, t) && !EndsWith(t, " ")
    ensures |t| <= IndexOf(ac.raw, other.raw)
  {
    StripTrailing(ac.raw[..IndexOf(ac.raw, other.raw)], ' ')
  }

  /** The cut shared by the source and the corrected version; `whole` says
      whether the starter must be a whole word. */
  function Cut(ac: Criterion, other: Criterion, whole: bool): (r: Criterion)
    ensures r != ac <==> Overlaps(ac, other) && FirstStarter(TextBefore(ac, other), ConditionalStarters, whole).Some?
    ensures r != ac ==> r.kind == ac.kind && r.begin == ac.begin && r.end == Wrap32(other.begin - 1)
    ensures r != ac ==> StartsWith(ac.raw, r.raw) && |r.raw| < |ac.raw| && !EndsWith(r.raw, " ")
  {
    forall j | 0 <= j < |ConditionalStarters| ensures |ConditionalStarters[j]| > 0 {
      StartersNonEmpty(j);
    }
    CutBy(ac, other, ConditionalStarters, whole)
  }

  /** The cut for any list of non-empty starters. */
  function CutBy(ac: Criterion, other: Criterion, starters: seq<string>, whole: bool): (r: Criterion)
    requires forall j :: 0 <= j < |starters| ==> |starters[j]| > 0
    ensures r != ac <==> Overlaps(ac, other) && FirstStarter(TextBefore(ac, other), starters, whole).Some?
    ensures r != ac ==> var j := FirstStarter(TextBefore(ac, other), starters, whole).value;
      r == CutBefore(ac, other, starters[j])
  {
    if Overlaps(ac, other) then
      match FirstStarter(TextBefore(ac, other), starters, whole)
      case None => ac
      case Some(j) => CutBefore(ac, other, starters[j])
    else ac
  }

  /** The criterion cut before the starter that the text before the other
      criterion ends with. */
  function CutBefore(ac: Criterion, other: Criterion, starter: string): (r: Criterion)
    requires Overlaps(ac, other) && EndsWith(TextBefore(ac, other), starter) && |starter| > 0
    ensures r != ac && r.kind == ac.kind && r.begin == ac.begin && r.end == Wrap32(other.begin - 1)
    ensures StartsWith(TextBefore(ac, other), r.raw) && StartsWith(ac.raw, r.raw)
    ensures |r.raw| < |ac.raw| && !EndsWith(r.raw, " ")
  {
    var t := TextBefore(ac, other);
    var raw := BeforeStarter(t, starter);
    PrefixOfPrefix(ac.raw, t, raw);
    Criterion(raw, ac.kind, ac.begin, Wrap32(other.begin - 1))
  }

  /** A prefix of a prefix is a prefix. */
  lemma PrefixOfPrefix(s: string, t: string, u: string)
    requires StartsWith(s, t) && StartsWith(t, u)
    ensures StartsWith(s, u)
  {
    assert s[..|t|][..|u|] == s[..|u|];
  }

  /** The text before the last occurrence of the starter it ends with,
      without trailing spaces. */
  function BeforeStarter(t: string, starter: string): (raw: string)
    requires EndsWith(t, starter) && |starter| > 0
    ensures StartsWith(t, raw) && |raw| < |t| && !EndsWith(raw, " ")
    ensures raw == StripTrailing(t[..|t| - |starter|], ' ')
  {
    LastIndexOfSuffix(t, starter);
    var raw := StripTrailing(t[..LastIndexOf(t, starter)], ' ');
    assert t[..|t| - |starter|][..|raw|] == t[..|raw|];
    raw
  }

  /** `cutOffAtNextAcceptanceCriterion`: the starter is a plain suffix. */
  function CutOffAtNextCriterion(ac: Criterion, other: Criterion): (r: Criterion)
    ensures r != ac <==> Overlaps(ac, other) && FirstStarter(TextBefore(ac, other), ConditionalStarters, false).Some?
  {
    Cut(ac, other, false)
  }

  /** The cut with the starter matched only as a whole word. */
  function CorrectedCutOff(ac: Criterion, other: Criterion): (r: Criterion)
    ensures r != ac <==> Overlaps(ac, other) && FirstStarter(TextBefore(ac, other), ConditionalStarters, true).Some?
  {
    Cut(ac, other, true)
  }

  /** `replaceUIDescription`; `None` stands for a `null` description. */
  function ReplaceUIDescription(ac: Criterion, ui: Option<string>): (r: Criterion)
    ensures ui.None? || !Contains(ac.raw, ui.value) ==> r == ac
    ensures r.kind == ac.kind && r.begin == ac.begin && r.end == ac.end
  {
    if ui.Some? && Contains(ac.raw, ui.value) then
      Criterion(ReplaceLiteral(ac.raw, ui.value, ActiveUserInterface), ac.kind, ac.begin, ac.end)
    else ac
  }

  /* ---------------------------------------------------------------------
     Properties
     --------------------------------------------------------------------- */

  /** A cut criterion keeps a prefix of the text before the other
      criterion's words and no longer holds those words. */
  lemma CutRemovesOther(ac: Criterion, other: Criterion, whole: bool)
    requires Cut(ac, other, whole) != ac
    ensures Overlaps(ac, other)
    ensures StartsWith(TextBefore(ac, other), Cut(ac, other, whole).raw)
    ensures !Contains(Cut(ac, other, whole).raw, other.raw)
  {
    var r := Cut(ac, other, whole);
    var k := IndexOf(ac.raw, other.raw);
    var t := TextBefore(ac, other);
    assert StartsWith(t, r.raw) && |r.raw| <= |t| <= k;
    if Contains(r.raw, other.raw) {
      var m := IndexOf(r.raw, other.raw);
      FirstOccurrenceInPrefix(ac.raw, r.raw, other.raw, k, m);
    }
  }

  /** The first occurrence of `pat` at `k` leaves none in any prefix of
      `s` shorter than `k`, unless `pat` is empty and `k` is 0. */
  lemma FirstOccurrenceInPrefix(s: string, p: string, pat: string, k: int, m: int)
    requires k == IndexOf(s, pat) && k >= 0
    requires StartsWith(s, p) && |p| <= k
    requires m >= 0 && OccursAt(pat, p, m)
    ensures |pat| == 0 && k == 0
  {
    assert s[m..m + |pat|] == p[m..m + |pat|];
    assert OccursAt(pat, s, m);
  }

  /** The corrected cut drops the starter only as a whole word: a space or
      the start of the text precedes it. */
  lemma CorrectedCutAtWord(ac: Criterion, other: Criterion)
    requires CorrectedCutOff(ac, other) != ac
    ensures Overlaps(ac, other)
    ensures exists j :: 0 <= j < |ConditionalStarters| && EndsWithStarter(TextBefore(ac, other), ConditionalStarters[j], true)
  {
    var t := TextBefore(ac, other);
    var j := FirstStarter(t, ConditionalStarters, true);
    assert EndsWithStarter(t, ConditionalStarters[j.value], true);
  }

  /** Both versions agree when the text before the other criterion ends in
      a starter word set off by a space. */
  lemma CutVersionsAgree(ac: Criterion, other: Criterion)
    requires Overlaps(ac, other)
    requires forall j :: 0 <= j < |ConditionalStarters| ==>
      (EndsWithStarter(TextBefore(ac, other), ConditionalStarters[j], false) <==> EndsWithStarter(TextBefore(ac, other), ConditionalStarters[j], true))
    ensures CutOffAtNextCriterion(ac, other) == CorrectedCutOff(ac, other)
  {
    var t := TextBefore(ac, other);
    SameStarter(t, ConditionalStarters);
  }

  /** The whole-word search and the plain one pick the same starter when
      they agree on every starter. */
  lemma {:induction false} SameStarter(t: string, starters: seq<string>)
    requires forall j :: 0 <= j < |starters| ==> (EndsWithStarter(t, starters[j], false) <==> EndsWithStarter(t, starters[j], true))
    ensures FirstStarter(t, starters, false) == FirstStarter(t, starters, true)
  {
    if starters != [] {
      SameStarter(t, starters[1..]);
    }
  }

  /** The example text before the other criterion. */
  const MotifText := "x motif y"

  /** "motif" ends in "if", so the plain suffix test cuts the word; the
      whole-word test leaves the criterion alone. */
  lemma MotifExample()
    ensures CutOffAtNextCriterion(Criterion(MotifText, Action, 1, 5), NewCriterion("y", Action).(begin := 3))
      == Criterion("x mot", Action, 1, 2)
    ensures CorrectedCutOff(Criterion(MotifText, Action, 1, 5), NewCriterion("y", Action).(begin := 3))
      == Criterion(MotifText, Action, 1, 5)
  {
    var ac := Criterion(MotifText, Action, 1, 5);
    var other := NewCriterion("y", Action).(begin := 3);
    MotifIndex();
    MotifBefore(ac, other);
    MotifCut(ac, other);
    MotifKept(ac, other);
  }

  /** The text of the example before the next criterion's first word. */
  lemma MotifBefore(ac: Criterion, other: Criterion)
    requires ac == Criterion(MotifText, Action, 1, 5) && other == NewCriterion("y", Action).(begin := 3)
    requires IndexOf(ac.raw, other.raw) == 8
    ensures TextBefore(ac, other) == "x motif"
  {
    assert ac.raw[..8] == "x motif ";
    assert "x motif "[..7] == "x motif";
  }

  /** As written, the cut falls inside "motif". */
  lemma MotifCut(ac: Criterion, other: Criterion)
    requires ac == Criterion(MotifText, Action, 1, 5) && other == NewCriterion("y", Action).(begin := 3)
    requires IndexOf(ac.raw, other.raw) == 8
    requires TextBefore(ac, other) == "x motif"
    ensures CutOffAtNextCriterion(ac, other) == Criterion("x mot", Action, 1, 2)
  {
    MotifStarter();
    LastIndexOfSuffix("x motif", "if");
    assert "x motif"[..5] == "x mot";
  }

  /** With whole words, nothing is cut. */
  lemma MotifKept(ac: Criterion, other: Criterion)
    requires ac == Criterion(MotifText, Action, 1, 5) && other == NewCriterion("y", Action).(begin := 3)
    requires IndexOf(ac.raw, other.raw) == 8
    requires TextBefore(ac, other) == "x motif"
    ensures CorrectedCutOff(ac, other) == ac
  {
    MotifStarter();
  }

  /** "y" first occurs at 8 in the example text. */
  lemma MotifIndex()
    ensures IndexOf(MotifText, "y") == 8
  {
    var s := MotifText;
    forall k | 0 <= k < 8 ensures !OccursAt("y", s, k) {
      assert s[k..k + 1][0] == s[k] != 'y';
    }
    assert OccursAt("y", s, 8);
  }

  /** "x motif" ends in "if" with no space before it, and in no earlier
      starter. */
  lemma MotifStarter()
    ensures FirstStarter("x motif", ConditionalStarters, false) == Some(0)
    ensures FirstStarter("x motif", ConditionalStarters, true) == None
  {
    var t := "x motif";
    assert EndsWith(t, "if") by { assert t[5..] == "if"; }
    assert !EndsWithStarter(t, "if", true) by { assert t[4] == 't'; }
    assert !EndsWith(t, "when") by { assert t[3..][0] != 'w'; }
    assert !EndsWith(t, "once") by { assert t[3..][1] != 'n'; }
    assert !EndsWith(t, "whenever");
    assert !EndsWith(t, "after") by { assert t[2..][0] != 'a'; }
    assert !EndsWith(t, "during") by { assert t[1..][0] != 'd'; }
    var starters := ConditionalStarters;
    assert starters[1..][1..][1..][1..][1..][1..] == [];
  }

  /** With the description present, the words before its first occurrence
      are kept and the fixed phrase takes its place. */
  lemma ReplaceUIKeepsPrefix(ac: Criterion, ui: string)
    requires |ui| > 0 && Contains(ac.raw, ui)
    ensures var k := IndexOf(ac.raw, ui);
      StartsWith(ReplaceUIDescription(ac, Some(ui)).raw, ac.raw[..k] + ActiveUserInterface)
  {
    ReplaceLiteralAtFirst(ac.raw, ui, ActiveUserInterface);
  }

  /** Replacing the phrase by itself leaves the criterion unchanged. */
  lemma ReplaceUIIdempotentOnPhrase(ac: Criterion)
    ensures ReplaceUIDescription(ac, Some(ActiveUserInterface)) == ac
  {
    ReplaceLiteralBySelf(ac.raw, ActiveUserInterface);
  }
}
