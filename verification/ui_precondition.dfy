/** The end of the description of a user interface in a user story: from its
    first word, UI-tagged words, nouns, commas and hyphens extend it, and a
    few fixed patterns (a preposition before a noun, "in" before another
    UI, quoted text, "(ET)", an arrow "->") carry it further. */
module UIPrecondition {
  import opened Wrappers
  import opened Strings
  import opened Parses

  /** The prepositions that may join two parts of one description. */
  const Prepositions: set<string> := {"under", "of", "for"}

  /** Token `i` (0-based) extends the description by itself: it is tagged
      UI, or is a noun, a comma or a hyphen. */
  predicate Extends(s: Sentence, i: int)
    requires 0 <= i < |s.tokens|
  {
    var t := s.tokens[i];
    t.ner == "UI" || StartsWith(t.pos, "NN") || t.pos == "," || t.pos == "HYPH"
  }

  /** Token `i` ends the description with no exception to consider: it does
      not extend it and is none of the words that start an exception. */
  predicate PlainStop(s: Sentence, i: int)
    requires 0 <= i < |s.tokens|
  {
    var t := s.tokens[i];
    !Extends(s, i) && ToLower(t.word) !in Prepositions && t.word != "in"
    && t.pos != "``" && t.pos != "-LRB-" && t.word != "\"" && t.word != ">"
  }

  /** The first index at or after `from` holding `x`, as an offset from
      `from`, or -1: `subList(from, size).indexOf(x)`. Unlike
      `Strings.IndexOfFrom` it looks for one element of a list of tokens
      and answers relative to `from`. */
  function IndexOfFrom(xs: seq<string>, x: string, from: nat): (r: int)
    requires from <= |xs|
    ensures -1 <= r < |xs| - from
    ensures r >= 0 ==> xs[from + r] == x && forall k :: from <= k < from + r ==> xs[k] != x
    ensures r == -1 <==> forall k :: from <= k < |xs| ==> xs[k] != x
    decreases |xs| - from
  {
    if from == |xs| then -1
    else if xs[from] == x then 0
    else
      var r := IndexOfFrom(xs, x, from + 1);
      if r == -1 then -1 else r + 1
  }

  /** One pass of the loop at token `i` with the end found so far `e`; the
      result is the end the method returns, or the exception it throws. */
  function Scan(s: Sentence, i: int, e: int): (r: Result<int>)
    requires WellFormed(s) && 0 <= e <= |s.tokens|
    ensures r.Success? ==> -1 <= r.value <= |s.tokens|
    ensures r.Failure? ==> r.error in {IndexOutOfBounds, NullPointer}
    decreases |s.tokens| - i
  {
    var n := |s.tokens|;
    if i >= n then Success(e)
    else if i < e || Extends(s, i) then Scan(s, i + 1, e)
    else
      var w := s.tokens[i].word;
      var pos := PosTags(s);
      var words := Words(s);
      if ToLower(w) in Prepositions then
        // the head of token i + 1 in the 1-based graph; the root has none
        if s.head[i] == 0 then Failure(NullPointer)
        else
          var p := s.head[i];
          if StartsWith(s.tokens[p - 1].pos, "NN") then
            if w == "for" && i + 1 >= n then Failure(IndexOutOfBounds)
            else if w == "for" && pos[i + 1] == "VBG" then Success(i - 1)
            else Scan(s, i + 1, p - 1)
          else Rest(s, i)
      else Rest(s, i)
  }

  /** The exceptions after the prepositions: "in" before another UI, "``" or
      '"' with a closing quote later, "(ET)" and "->". */
  function Rest(s: Sentence, i: int): (r: Result<int>)
    requires WellFormed(s) && 0 <= i < |s.tokens|
    ensures r.Success? ==> -1 <= r.value <= |s.tokens|
    ensures r.Failure? ==> r.error in {IndexOutOfBounds, NullPointer}
    decreases |s.tokens| - i, 0
  {
    var n := |s.tokens|;
    var w := s.tokens[i].word;
    var pos := PosTags(s);
    var words := Words(s);
    var ner := NerTags(s);
    if w == "in" && i + 1 >= n then Failure(IndexOutOfBounds)
    else if w == "in" && ner[i + 1] != "UI" && i + 2 >= n then Failure(IndexOutOfBounds)
    else if w == "in" && (ner[i + 1] == "UI" || EqualsIgnoreCase(words[i + 2], "list") || EqualsIgnoreCase(words[i + 1], "CoMET")) then
      Scan(s, i + 1, i + 2)
    else if pos[i] == "``" && IndexOfFrom(pos, "''", i + 1) >= 0 then
      Scan(s, i + 1, i + 2 + IndexOfFrom(pos, "''", i + 1))
    else if pos[i] == "-LRB-" && i + 2 >= n then Failure(IndexOutOfBounds)
    else if pos[i] == "-LRB-" && pos[i + 2] == "-RRB-" && words[i + 1] == "ET" then
      Scan(s, i + 1, i + 3)
    else if w == "\"" && IndexOfFrom(words, "\"", i + 1) >= 0 then
      Scan(s, i + 1, i + 2 + IndexOfFrom(words, "\"", i + 1))
    else if w == ">" && i == 0 then Failure(IndexOutOfBounds)
    else if w == ">" && words[i - 1] == "-" then Scan(s, i + 1, i + 1)
    else Success(i - 1)
  }

  /** `getEndIndexOfUI`: the 0-based index of the last word of the
      description that starts at `beginIndex`. */
  function EndIndexOfUI(beginIndex: int, s: Sentence): (r: Result<int>)
    requires WellFormed(s)
    ensures r.Success? ==> -1 <= r.value <= |s.tokens|
    ensures r.Failure? ==> r.error in {IndexOutOfBounds, NullPointer}
  {
    Scan(s, beginIndex, 0)
  }

  /* ---------------------------------------------------------------------
     Properties
     --------------------------------------------------------------------- */

  /** Tokens before the end found so far are skipped unread: the scan goes
      on from the end itself. */
  lemma {:induction false} ScanSkips(s: Sentence, i: int, e: int)
    requires WellFormed(s) && 0 <= e <= |s.tokens| && i <= e
    ensures Scan(s, i, e) == Scan(s, e, e)
    decreases e - i
  {
    if i < e {
      ScanSkips(s, i + 1, e);
    }
  }

  /** A run of tokens that extend the description changes nothing. */
  lemma {:induction false} ScanContinues(s: Sentence, i: int, e: int, j: int)
    requires WellFormed(s) && 0 <= e <= |s.tokens| && e <= i <= j <= |s.tokens|
    requires forall k :: i <= k < j ==> Extends(s, k)
    ensures Scan(s, i, e) == Scan(s, j, e)
    decreases j - i
  {
    if i < j {
      ScanContinues(s, i + 1, e, j);
    }
  }

  /** Scanning from a negative index is scanning from 0. */
  lemma NegativeBegin(s: Sentence, beginIndex: int)
    requires WellFormed(s) && beginIndex < 0
    ensures EndIndexOfUI(beginIndex, s) == EndIndexOfUI(0, s)
  {
    ScanSkips(s, beginIndex, 0);
  }

  /** When every token from the first word on extends the description, the
      result is the initial 0, whatever the length. */
  lemma AllExtendMeansZero(s: Sentence, beginIndex: nat)
    requires WellFormed(s)
    requires forall k :: beginIndex <= k < |s.tokens| ==> Extends(s, k)
    ensures EndIndexOfUI(beginIndex, s) == Success(0)
  {
    if beginIndex < |s.tokens| {
      ScanContinues(s, beginIndex, 0, |s.tokens|);
    }
  }

  /** At the first token that does not extend the description and starts
      no exception, the description ends just before it. */
  lemma FirstPlainStop(s: Sentence, beginIndex: nat, j: nat)
    requires WellFormed(s) && beginIndex <= j < |s.tokens|
    requires forall k :: beginIndex <= k < j ==> Extends(s, k)
    requires PlainStop(s, j)
    ensures EndIndexOfUI(beginIndex, s) == Success(j - 1)
  {
    ScanContinues(s, beginIndex, 0, j);
  }

  /** A preposition whose head is a noun moves the end to that noun, and the
      scan resumes at the later of the next token and the noun; "for"
      before a gerund stops instead, and a preposition at the root of the
      tree has no head to ask for its tag. */
  lemma PrepositionStep(s: Sentence, i: nat, e: nat)
    requires WellFormed(s) && e <= i < |s.tokens| && !Extends(s, i)
    requires ToLower(s.tokens[i].word) in Prepositions
    ensures s.head[i] == 0 ==> Scan(s, i, e) == Failure(NullPointer)
    ensures (s.head[i] != 0 && StartsWith(s.tokens[s.head[i] - 1].pos, "NN") && s.tokens[i].word == "for"
             && i + 1 < |s.tokens| && s.tokens[i + 1].pos == "VBG") ==> Scan(s, i, e) == Success(i - 1)
    ensures (s.head[i] != 0 && StartsWith(s.tokens[s.head[i] - 1].pos, "NN")
             && (s.tokens[i].word != "for" || (i + 1 < |s.tokens| && s.tokens[i + 1].pos != "VBG"))) ==>
      var p := s.head[i];
      Scan(s, i, e) == Scan(s, if p - 1 > i + 1 then p - 1 else i + 1, p - 1)
  {
    var p := s.head[i];
    if p != 0 && p - 1 > i + 1 {
      ScanSkips(s, i + 1, p - 1);
    }
  }

  /** "in" before a UI-tagged word, before "list" one word later, or before
      "CoMET" takes the next two tokens into the description. */
  lemma InStep(s: Sentence, i: nat, e: nat)
    requires WellFormed(s) && e <= i && i + 2 < |s.tokens| && !Extends(s, i)
    requires s.tokens[i].word == "in"
    requires s.tokens[i + 1].ner == "UI" || EqualsIgnoreCase(s.tokens[i + 2].word, "list")
      || EqualsIgnoreCase(s.tokens[i + 1].word, "CoMET")
    ensures Scan(s, i, e) == Scan(s, i + 2, i + 2)
  {
    assert ToLower(s.tokens[i].word) !in Prepositions by {
      assert ToLower("in") == "in";
    }
    ScanSkips(s, i + 1, i + 2);
  }

  /** An opening quote with a closing one later takes everything up to the
      closing quote and the token after it. */
  lemma QuoteStep(s: Sentence, i: nat, e: nat, c: nat)
    requires WellFormed(s) && e <= i < c < |s.tokens| && !Extends(s, i)
    requires s.tokens[i].pos == "``" && ToLower(s.tokens[i].word) !in Prepositions && s.tokens[i].word != "in"
    requires s.tokens[c].pos == "''" && forall k :: i < k < c ==> s.tokens[k].pos != "''"
    ensures c + 1 <= |s.tokens|
    ensures Scan(s, i, e) == Scan(s, c + 1, c + 1)
  {
    QuoteRest(s, i, c);
    ScanToRest(s, i, e);
    ScanSkips(s, i + 1, c + 1);
  }

  /** Past the prepositions, a token the scan does not skip goes to the
      exceptions. */
  lemma ScanToRest(s: Sentence, i: nat, e: nat)
    requires WellFormed(s) && e <= i < |s.tokens| && !Extends(s, i)
    requires ToLower(s.tokens[i].word) !in Prepositions
    ensures Scan(s, i, e) == Rest(s, i)
  {
  }

  /** A '"' token, with another '"' token later, takes everything up to
      that next one and the token after it. */
  lemma DoubleQuoteStep(s: Sentence, i: nat, e: nat, c: nat)
    requires WellFormed(s) && e <= i < c < |s.tokens| && !Extends(s, i)
    requires s.tokens[i].word == "\"" && s.tokens[i].pos != "``" && s.tokens[i].pos != "-LRB-"
    requires ToLower(s.tokens[i].word) !in Prepositions
    requires s.tokens[c].word == "\"" && forall k :: i < k < c ==> s.tokens[k].word != "\""
    ensures c + 1 <= |s.tokens|
    ensures Scan(s, i, e) == Scan(s, c + 1, c + 1)
  {
    DoubleQuoteRest(s, i, c);
    ScanToRest(s, i, e);
    ScanSkips(s, i + 1, c + 1);
  }

  /** A '"' token that is neither "``" nor "-LRB-", whose next '"' is at
      `c`, skips to after that one. */
  lemma DoubleQuoteRest(s: Sentence, i: nat, c: nat)
    requires WellFormed(s) && i < c < |s.tokens|
    requires s.tokens[i].word == "\"" && s.tokens[i].pos != "``" && s.tokens[i].pos != "-LRB-"
    requires s.tokens[c].word == "\"" && forall k :: i < k < c ==> s.tokens[k].word != "\""
    ensures Rest(s, i) == Scan(s, i + 1, c + 1)
  {
    FirstAt(Words(s), "\"", i + 1, c);
    RestAtDoubleQuote(s, i, c);
  }

  /** `Rest` at a '"' token whose next '"' is `c - i` tokens on. */
  lemma RestAtDoubleQuote(s: Sentence, i: nat, c: nat)
    requires WellFormed(s) && i < c < |s.tokens|
    requires s.tokens[i].word == "\"" && s.tokens[i].pos != "``" && s.tokens[i].pos != "-LRB-"
    requires IndexOfFrom(Words(s), "\"", i + 1) == c - i - 1
    ensures Rest(s, i) == Scan(s, i + 1, c + 1)
  {
    assert s.tokens[i].word != "in";
    assert PosTags(s)[i] == s.tokens[i].pos;
  }

  /** An opening "``" whose first closing quote is at `c` skips to after
      the closing quote. */
  lemma QuoteRest(s: Sentence, i: nat, c: nat)
    requires WellFormed(s) && i < c < |s.tokens| && s.tokens[i].word != "in"
    requires s.tokens[i].pos == "``" && s.tokens[c].pos == "''" && forall k :: i < k < c ==> s.tokens[k].pos != "''"
    ensures Rest(s, i) == Scan(s, i + 1, c + 1)
  {
    FirstAt(PosTags(s), "''", i + 1, c);
    RestAtQuote(s, i, c);
  }

  /** `Rest` at a "``" token whose next "''" is `c - i` tokens on. */
  lemma RestAtQuote(s: Sentence, i: nat, c: nat)
    requires WellFormed(s) && i < c < |s.tokens| && s.tokens[i].word != "in"
    requires s.tokens[i].pos == "``" && IndexOfFrom(PosTags(s), "''", i + 1) == c - i - 1
    ensures Rest(s, i) == Scan(s, i + 1, c + 1)
  {
    assert PosTags(s)[i] == s.tokens[i].pos;
  }

  /** The offset of the first `x` from `from`, when it sits at `c`. */
  lemma FirstAt(xs: seq<string>, x: string, from: nat, c: nat)
    requires from <= c < |xs| && xs[c] == x && forall k :: from <= k < c ==> xs[k] != x
    ensures IndexOfFrom(xs, x, from) == c - from
  {
  }

  /** "(" "ET" ")" takes the three tokens and the one after them. */
  lemma EtStep(s: Sentence, i: nat, e: nat)
    requires WellFormed(s) && e <= i && i + 2 < |s.tokens| && !Extends(s, i)
    requires s.tokens[i].pos == "-LRB-" && s.tokens[i + 1].word == "ET" && s.tokens[i + 2].pos == "-RRB-"
    requires ToLower(s.tokens[i].word) !in Prepositions && s.tokens[i].word != "in"
    ensures Scan(s, i, e) == Scan(s, i + 3, i + 3)
  {
    ScanSkips(s, i + 1, i + 3);
  }

  /** The ">" of an arrow "->" takes the next token too. */
  lemma ArrowStep(s: Sentence, i: nat, e: nat)
    requires WellFormed(s) && e <= i && 0 < i < |s.tokens| && !Extends(s, i)
    requires s.tokens[i].word == ">" && s.tokens[i - 1].word == "-" && s.tokens[i].pos != "``" && s.tokens[i].pos != "-LRB-"
    ensures Scan(s, i, e) == Scan(s, i + 1, i + 1)
  {
    assert ToLower(s.tokens[i].word) !in Prepositions by {
      assert ToLower(">") == ">";
    }
  }

  /** "in" as the last token reads past the end of the lists. */
  lemma InAtEndFails(s: Sentence, i: nat, e: nat)
    requires WellFormed(s) && e <= i && i + 1 == |s.tokens| && !Extends(s, i)
    requires s.tokens[i].word == "in"
    ensures Scan(s, i, e) == Failure(IndexOutOfBounds)
  {
    assert ToLower(s.tokens[i].word) !in Prepositions by {
      assert ToLower("in") == "in";
    }
  }

  /** "the event cockpit in CoMET ." */
  const CockpitInCoMET := Sentence(
    [Token("the", "DT", "O", 0, 3), Token("event", "NN", "UI", 4, 9), Token("cockpit", "NN", "UI", 10, 17),
     Token("in", "IN", "O", 18, 20), Token("CoMET", "NNP", "O", 21, 26), Token(".", ".", "O", 26, 27)],
    [3, 3, 0, 5, 3, 3],
    ["det", "compound", "root", "case", "nmod", "punct"])

  /** From "event", the description runs to "CoMET"; the same words without
      the period make the lookahead fail. */
  lemma CoMETExample()
    ensures EndIndexOfUI(1, CockpitInCoMET) == Success(4)
    ensures EndIndexOfUI(1, CockpitInCoMET.(tokens := CockpitInCoMET.tokens[..5], head := [3, 3, 0, 5, 3],
      relation := CockpitInCoMET.relation[..5])) == Failure(IndexOutOfBounds)
  {
    CoMETFull(CockpitInCoMET);
    CoMETCut(CockpitInCoMET.(tokens := CockpitInCoMET.tokens[..5], head := [3, 3, 0, 5, 3],
      relation := CockpitInCoMET.relation[..5]));
  }

  lemma CoMETFull(s: Sentence)
    requires s == CockpitInCoMET
    ensures EndIndexOfUI(1, s) == Success(4)
  {
    assert EqualsIgnoreCase("CoMET", "CoMET");
    ScanContinues(s, 1, 0, 3);
    assert !StartsWith("IN", "NN") by { assert "IN"[0] != "NN"[0]; }
    InStep(s, 3, 0);
    assert ToLower(".") == ".";
    assert PlainStop(s, 5);
  }

  lemma CoMETCut(t: Sentence)
    requires t == CockpitInCoMET.(tokens := CockpitInCoMET.tokens[..5], head := [3, 3, 0, 5, 3],
      relation := CockpitInCoMET.relation[..5])
    ensures EndIndexOfUI(1, t) == Failure(IndexOutOfBounds)
  {
    assert |t.tokens| == 5 && t.tokens[3].word == "in" && t.tokens[4].ner == "O";
    assert Extends(t, 1) && Extends(t, 2);
    ScanContinues(t, 1, 0, 3);
    assert ToLower("in") == "in";
    assert !StartsWith("IN", "NN") by { assert "IN"[0] != "NN"[0]; }
    assert Scan(t, 3, 0) == Rest(t, 3);
  }
}
