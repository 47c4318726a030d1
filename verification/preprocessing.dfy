/** Preprocessing of a user story for the Gherkin generator: the table that
    turns first-person pronouns into "the user", the third-person fix of the
    verb that belongs to "I", and the splicer that writes replacements back
    into the sentence text. */
module Preprocessing {
  import opened Wrappers
  import opened Strings
  import opened Parses
  import opened SharedUtils

  /** The possessive, with the typographic apostrophe U+2019. */
  const UsersPossessive := "the user\U{2019}s"

  /** The third-person replacement of a first-person pronoun, compared
      ignoring case; `None` for every other word. */
  function PronounReplacement(w: string): (r: Option<string>)
    ensures r.Some? <==> (EqualsIgnoreCase(w, "I") || EqualsIgnoreCase(w, "me") || EqualsIgnoreCase(w, "my")
      || EqualsIgnoreCase(w, "mine") || EqualsIgnoreCase(w, "myself"))
    ensures r == Some("the user") <==> EqualsIgnoreCase(w, "I") || EqualsIgnoreCase(w, "me")
  {
    if EqualsIgnoreCase(w, "I") || EqualsIgnoreCase(w, "me") then Some("the user")
    else if EqualsIgnoreCase(w, "my") || EqualsIgnoreCase(w, "mine") then Some(UsersPossessive)
    else if EqualsIgnoreCase(w, "myself") then Some("themself")
    else None
  }

  /** A child of `parent` reached by a relation whose short name starts with
      `name` and tagged exactly `tag`. */
  predicate ChildWith(s: Sentence, parent: nat, c: nat, name: string, tag: string)
    requires WellFormed(s)
  {
    IsNode(s, c) && s.head[c - 1] == parent && StartsWith(s.relation[c - 1], name) && s.tokens[c - 1].pos == tag
  }

  /** The first of `cs` that is such a child. */
  function FirstChildIn(s: Sentence, parent: nat, cs: seq<nat>, name: string, tag: string): (r: Option<nat>)
    requires WellFormed(s)
    requires forall i, j :: 0 <= i < j < |cs| ==> cs[i] < cs[j]
    ensures r.Some? ==> r.value in cs && ChildWith(s, parent, r.value, name, tag)
    ensures r.Some? ==> forall k :: 0 <= k < |cs| && cs[k] < r.value ==> !ChildWith(s, parent, cs[k], name, tag)
    ensures r.None? <==> forall k :: 0 <= k < |cs| ==> !ChildWith(s, parent, cs[k], name, tag)
  {
    if cs == [] then None
    else if ChildWith(s, parent, cs[0], name, tag) then Some(cs[0])
    else FirstChildIn(s, parent, cs[1..], name, tag)
  }

  /** `getFirstChildWithRelationAndTag`: the child with the least index
      that qualifies, or `None` for `null`. */
  function FirstChildWithRelationAndTag(s: Sentence, parent: nat, name: string, tag: string): (r: Option<nat>)
    requires WellFormed(s)
    ensures r.Some? ==> ChildWith(s, parent, r.value, name, tag)
    ensures r.Some? ==> forall c :: 1 <= c < r.value ==> !ChildWith(s, parent, c, name, tag)
    ensures r.None? <==> forall c :: !ChildWith(s, parent, c, name, tag)
  {
    var cs := Children(s, parent);
    var r := FirstChildIn(s, parent, cs, name, tag);
    assert forall c :: ChildWith(s, parent, c, name, tag) ==> c in cs;
    r
  }

  /** The replacement of one verb by its third-person form. */
  function VerbEntry(s: Sentence, v: nat): (r: Result<map<int, string>>)
    requires WellFormed(s) && IsNode(s, v)
    ensures r.Success? ==> (forall k :: k in r.value <==> k == v) && ThirdPerson(s.tokens[v - 1].word) == Success(r.value[v])
    ensures r.Failure? <==> ThirdPerson(s.tokens[v - 1].word).Failure?
    ensures r.Failure? ==> r.error == IndexOutOfBounds
  {
    match ThirdPerson(s.tokens[v - 1].word)
    case Success(w) => Success(map[v as int := w])
    case Failure(e) => Failure(e)
  }

  /** The verb whose form depends on the subject, given the subject's
      head: the head itself when tagged VBP; for an adjective or noun head
      its first copula child tagged VBP; for a VB or VBN head its first
      auxiliary child tagged VBP; otherwise none. */
  function VerbOfHead(s: Sentence, p: nat): (r: Option<nat>)
    requires WellFormed(s) && IsNode(s, p)
    ensures r.Some? ==> IsNode(s, r.value) && s.tokens[r.value - 1].pos == "VBP"
    ensures r.Some? ==> r.value == p || s.head[r.value - 1] == p
    ensures s.tokens[p - 1].pos == "VBP" ==> r == Some(p)
    ensures r.Some? && r.value != p ==> var tag := s.tokens[p - 1].pos;
      ((tag == "JJ" || StartsWith(tag, "NN")) && StartsWith(s.relation[r.value - 1], "cop"))
      || ((tag == "VB" || tag == "VBN") && StartsWith(s.relation[r.value - 1], "aux"))
  {
    var tag := s.tokens[p - 1].pos;
    if tag == "VBP" then Some(p)
    else if tag == "JJ" || StartsWith(tag, "NN") then FirstChildWithRelationAndTag(s, p, "cop", "VBP")
    else if tag == "VB" || tag == "VBN" then FirstChildWithRelationAndTag(s, p, "aux", "VBP")
    else None
  }

  /** `addSToVerbOfSubject`: at most one entry, the verb of the subject in
      its third-person form. A subject at the root has no head, which the
      source dereferences. */
  function AddSToVerbOfSubject(s: Sentence, subject: nat): (r: Result<map<int, string>>)
    requires WellFormed(s)
    ensures r.Failure? ==> r.error in {NoSuchNode, NullPointer, IndexOutOfBounds}
    ensures r.Failure? && r.error == NoSuchNode <==> !IsNode(s, subject)
    ensures r.Failure? && r.error == NullPointer <==> IsNode(s, subject) && s.head[subject - 1] == 0
    ensures r.Success? ==> IsNode(s, subject) && s.head[subject - 1] != 0
    ensures r.Success? ==> forall k :: k in r.value ==> IsNode(s, k) && VerbOfHead(s, s.head[subject - 1]) == Some(k as nat)
    ensures r.Success? ==> forall k :: k in r.value && IsNode(s, k) ==> ThirdPerson(s.tokens[k - 1].word) == Success(r.value[k])
  {
    if !IsNode(s, subject) then Failure(NoSuchNode)
    else if s.head[subject - 1] == 0 then Failure(NullPointer)
    else VerbFix(s, s.head[subject - 1])
  }

  /** The fix of the verb of a head: none without a verb, else the verb's
      entry. */
  function VerbFix(s: Sentence, p: nat): (r: Result<map<int, string>>)
    requires WellFormed(s) && IsNode(s, p)
    ensures r.Failure? ==> r.error == IndexOutOfBounds
    ensures r.Success? ==> forall k :: k in r.value ==> IsNode(s, k) && VerbOfHead(s, p) == Some(k as nat)
    ensures r.Success? ==> forall k :: k in r.value && IsNode(s, k) ==> ThirdPerson(s.tokens[k - 1].word) == Success(r.value[k])
  {
    match VerbOfHead(s, p)
    case None => Success(map[])
    case Some(v) => VerbEntry(s, v)
  }

  /** The replacements for the mentions, handled in order: a pronoun maps
      to its replacement, and "I" adds the fix of its verb on top, entries
      put later overwriting earlier ones. */
  function HandleMentions(s: Sentence, mentions: seq<int>, acc: map<int, string>): (r: Result<map<int, string>>)
    requires WellFormed(s)
    ensures r == Failure(NoSuchNode) ==> exists k :: 0 <= k < |mentions| && !IsNode(s, mentions[k])
    ensures r.Success? ==> forall k :: k in acc ==> k in r.value
  {
    if mentions == [] then Success(acc)
    else
      var m := mentions[0];
      if !IsNode(s, m) then Failure(NoSuchNode)
      else
        var w := s.tokens[m - 1].word;
        match PronounReplacement(w)
        case None => HandleMentions(s, mentions[1..], acc)
        case Some(rep) =>
          if EqualsIgnoreCase(w, "I") then
            match AddSToVerbOfSubject(s, m)
            case Failure(e) => Failure(e)
            case Success(verbs) => HandleMentions(s, mentions[1..], acc[m := rep] + verbs)
          else HandleMentions(s, mentions[1..], acc[m := rep])
  }

  /** `switchToThirdPerson` given the subject and its coreferences (the
      output of the coreference annotator): without coreferences the subject
      alone is handled. */
  function SwitchToThirdPerson(s: Sentence, subject: nat, mentions: seq<int>): (r: Result<map<int, string>>)
    requires WellFormed(s)
    ensures mentions == [] && IsNode(s, subject) && PronounReplacement(s.tokens[subject - 1].word).Some? && r.Success?
      ==> subject in r.value
    ensures r.Success? ==> forall k :: k in r.value ==> IsNode(s, k)
    ensures r.Success? ==> var handled := Handled(subject, mentions);
      forall k :: k in r.value ==> k in handled || k in IVerbs(s, handled)
    ensures r.Success? ==> var handled := Handled(subject, mentions);
      forall i :: 0 <= i < |handled| && IsNode(s, handled[i]) && PronounReplacement(WordAt(s, handled[i])).Some? ==> handled[i] in r.value
  {
    var handled := Handled(subject, mentions);
    var r := HandleMentions(s, handled, map[]);
    MentionKeysAreNodes(s, handled, map[]);
    HandleMentionsKeys(s, handled, map[]);
    HandleMentionsCovers(s, handled, map[]);
    r
  }

  /** The mentions that are handled: the coreferences, or the subject alone
      without any. */
  function Handled(subject: nat, mentions: seq<int>): seq<int> {
    if mentions == [] then [subject as int] else mentions
  }

  /** The verbs the "I" mentions fix: for each mention that is "I" with a
      head, the verb of that head, if it has one. */
  function IVerbs(s: Sentence, mentions: seq<int>): set<int>
    requires WellFormed(s)
  {
    if mentions == [] then {}
    else
      var m := mentions[0];
      var mine := if IsNode(s, m) && EqualsIgnoreCase(WordAt(s, m), "I") && s.head[m - 1] != 0
                  then match VerbOfHead(s, s.head[m - 1]) case Some(v) => {v as int} case None => {}
                  else {};
      mine + IVerbs(s, mentions[1..])
  }

  /** The keys the mentions add are the mentions themselves and the verbs
      the "I" mentions fix; nothing else. */
  lemma {:induction false} HandleMentionsKeys(s: Sentence, mentions: seq<int>, acc: map<int, string>)
    requires WellFormed(s)
    ensures var r := HandleMentions(s, mentions, acc);
      r.Success? ==> forall k :: k in r.value ==> k in acc || k in mentions || k in IVerbs(s, mentions)
    decreases |mentions|
  {
    if mentions != [] && IsNode(s, mentions[0]) {
      var m, tail := mentions[0], mentions[1..];
      var w := WordAt(s, m);
      assert forall k :: k in tail ==> k in mentions;
      assert IVerbs(s, tail) <= IVerbs(s, mentions);
      match PronounReplacement(w)
      case None =>
        HandleMentionsKeys(s, tail, acc);
      case Some(rep) =>
        if EqualsIgnoreCase(w, "I") {
          HandleIStep(s, mentions, acc);
          var v := AddSToVerbOfSubject(s, m);
          if v.Success? {
            assert forall k :: k in v.value ==> k in IVerbs(s, mentions);
            HandleMentionsKeys(s, tail, acc[m := "the user"] + v.value);
          }
        } else {
          HandleMentionsKeys(s, tail, acc[m := rep]);
        }
    }
  }

  /** Every pronoun among the mentions gets an entry. */
  lemma {:induction false} HandleMentionsCovers(s: Sentence, mentions: seq<int>, acc: map<int, string>)
    requires WellFormed(s)
    ensures var r := HandleMentions(s, mentions, acc);
      r.Success? ==> forall i :: 0 <= i < |mentions| && IsNode(s, mentions[i]) && PronounReplacement(WordAt(s, mentions[i])).Some? ==> mentions[i] in r.value
    decreases |mentions|
  {
    if mentions != [] && IsNode(s, mentions[0]) {
      var m, tail := mentions[0], mentions[1..];
      var w := WordAt(s, m);
      assert forall i :: 1 <= i < |mentions| ==> mentions[i] == tail[i - 1];
      match PronounReplacement(w)
      case None =>
        HandleMentionsCovers(s, tail, acc);
      case Some(rep) =>
        if EqualsIgnoreCase(w, "I") {
          HandleIStep(s, mentions, acc);
          var v := AddSToVerbOfSubject(s, m);
          if v.Success? {
            HandleMentionsCovers(s, tail, acc[m := "the user"] + v.value);
          }
        } else {
          HandleMentionsCovers(s, tail, acc[m := rep]);
        }
    }
  }

  /** A subject "I" without coreferences becomes "the user", and its verb,
      if it has one, takes the third-person form; the verb fix's errors
      come through. */
  lemma SwitchSubjectI(s: Sentence, subject: nat)
    requires WellFormed(s) && IsNode(s, subject) && EqualsIgnoreCase(WordAt(s, subject), "I")
    ensures var v := AddSToVerbOfSubject(s, subject);
      SwitchToThirdPerson(s, subject, []) == if v.Success? then Success(map[subject as int := "the user"] + v.value) else Failure(v.error)
  {
    var h := [subject as int];
    assert h[1..] == [] && Handled(subject, []) == h;
    HandleIStep(s, h, map[]);
  }

  /** An "I" mention: "the user", then the fix of its verb on top. */
  lemma HandleIStep(s: Sentence, mentions: seq<int>, acc: map<int, string>)
    requires WellFormed(s) && mentions != [] && IsNode(s, mentions[0]) && EqualsIgnoreCase(WordAt(s, mentions[0]), "I")
    ensures var v := AddSToVerbOfSubject(s, mentions[0]);
      HandleMentions(s, mentions, acc)
        == if v.Success? then HandleMentions(s, mentions[1..], acc[mentions[0] := "the user"] + v.value) else Failure(v.error)
  {
    assert PronounReplacement(WordAt(s, mentions[0])) == Some("the user");
  }

  /** Every key a mention adds is a token. */
  lemma {:induction false} MentionKeysAreNodes(s: Sentence, mentions: seq<int>, acc: map<int, string>)
    requires WellFormed(s) && forall k :: k in acc ==> IsNode(s, k)
    ensures var r := HandleMentions(s, mentions, acc);
      r.Success? ==> forall k :: k in r.value ==> IsNode(s, k)
    decreases |mentions|
  {
    if mentions != [] && IsNode(s, mentions[0]) {
      var m := mentions[0];
      var w := s.tokens[m - 1].word;
      match PronounReplacement(w)
      case None => MentionKeysAreNodes(s, mentions[1..], acc);
      case Some(rep) =>
        if EqualsIgnoreCase(w, "I") {
          match AddSToVerbOfSubject(s, m)
          case Failure(e) =>
          case Success(verbs) => MentionKeysAreNodes(s, mentions[1..], acc[m := rep] + verbs);
        } else {
          MentionKeysAreNodes(s, mentions[1..], acc[m := rep]);
        }
    }
  }

  /** The verb fix has at most one entry. */
  lemma VerbFixAtMostOne(s: Sentence, subject: nat)
    requires WellFormed(s) && AddSToVerbOfSubject(s, subject).Success?
    ensures var r := AddSToVerbOfSubject(s, subject).value;
      forall k1, k2 :: k1 in r && k2 in r ==> k1 == k2
  {
  }

  /** The word of a token. */
  function WordAt(s: Sentence, k: int): string
    requires IsNode(s, k)
  {
    s.tokens[k - 1].word
  }

  /** Without an "I" among the mentions no verb is touched: the entries are
      exactly the pronoun mentions, each with its table replacement, on top
      of what was there. */
  lemma {:induction false} HandleWithoutI(s: Sentence, mentions: seq<int>, acc: map<int, string>)
    requires WellFormed(s)
    requires forall i :: 0 <= i < |mentions| ==> IsNode(s, mentions[i]) && !EqualsIgnoreCase(WordAt(s, mentions[i]), "I")
    ensures HandleMentions(s, mentions, acc).Success?
    ensures var r := HandleMentions(s, mentions, acc).value;
      forall k :: k in r <==> k in acc || (k in mentions && PronounReplacement(WordAt(s, k)).Some?)
    ensures var r := HandleMentions(s, mentions, acc).value;
      forall k :: k in mentions && PronounReplacement(WordAt(s, k)).Some? ==> r[k] == PronounReplacement(WordAt(s, k)).value
    ensures var r := HandleMentions(s, mentions, acc).value;
      forall k :: k in acc && k !in mentions ==> r[k] == acc[k]
    decreases |mentions|
  {
    if mentions != [] {
      var m := mentions[0];
      assert forall k :: k in mentions <==> k == m || k in mentions[1..];
      match PronounReplacement(WordAt(s, m))
      case None => HandleWithoutI(s, mentions[1..], acc);
      case Some(rep) => HandleWithoutI(s, mentions[1..], acc[m := rep]);
    }
  }

  /** Only "I" triggers the verb fix: with coreferences none of which is
      "I", the replacements are exactly the pronoun mentions. */
  lemma SwitchWithoutI(s: Sentence, subject: nat, mentions: seq<int>)
    requires WellFormed(s) && mentions != []
    requires forall i :: 0 <= i < |mentions| ==> IsNode(s, mentions[i]) && !EqualsIgnoreCase(WordAt(s, mentions[i]), "I")
    ensures SwitchToThirdPerson(s, subject, mentions).Success?
    ensures var r := SwitchToThirdPerson(s, subject, mentions).value;
      forall k :: k in r <==> k in mentions && PronounReplacement(WordAt(s, k)).Some?
    ensures var r := SwitchToThirdPerson(s, subject, mentions).value;
      forall k :: k in r ==> r[k] == PronounReplacement(WordAt(s, k)).value
  {
    HandleWithoutI(s, mentions, map[]);
  }

  /** The table on examples, case ignored; other words have no entry. */
  lemma PronounExamples()
    ensures PronounReplacement("I") == Some("the user")
    ensures PronounReplacement("Me") == Some("the user")
    ensures PronounReplacement("MY") == Some(UsersPossessive)
    ensures PronounReplacement("mine") == Some(UsersPossessive)
    ensures PronounReplacement("Myself") == Some("themself")
    ensures PronounReplacement("you") == None
  {
    assert ToLower("Me") == "me";
    assert ToLower("MY") == "my";
    assert ToLower("Myself") == "myself";
    assert ToLower("you")[0] == 'y';
  }

  /** "I want", parsed with "want" as the root and "I" its subject. */
  const IWant := Sentence([Token("I", "PRP", "O", 0, 1), Token("want", "VBP", "O", 2, 6)], [2, 0], ["nsubj", "root"])

  /** The subject "I" of "I want" becomes "the user" and its verb "wants". */
  lemma SwitchExample()
    ensures SwitchToThirdPerson(IWant, 1, []) == Success(map[1 := "the user", 2 := "wants"])
  {
    var s := IWant;
    assert WellFormed(s);
    WantExample();
    assert VerbOfHead(s, 2) == Some(2);
    assert AddSToVerbOfSubject(s, 1) == Success(map[2 := "wants"]);
    assert EqualsIgnoreCase("I", "I");
    assert PronounReplacement("I") == Some("the user");
    var both := map[1 := "the user"] + map[2 := "wants"];
    assert both == map[1 := "the user", 2 := "wants"];
    assert [1][1..] == [];
    assert HandleMentions(s, [1], map[]) == HandleMentions(s, [], both);
  }

  /** Written back, the replacements turn "I want" into "the user wants". */
  lemma ReplaceExample()
    ensures ReplaceWordsInSentence(IWant, "I want", map[1 := "the user", 2 := "wants"]) == Success("the user wants")
  {
    ReplaceVerbFirst();
    ReplaceSubjectNext();
  }

  /** The verb, the larger index, is replaced first. */
  lemma ReplaceVerbFirst()
    ensures ReplaceWordsInSentence(IWant, "I want", map[1 := "the user", 2 := "wants"])
      == ReplaceWordsInSentence(IWant, "I wants", map[1 := "the user"])
  {
    var r := map[1 := "the user", 2 := "wants"];
    ReplaceStep(IWant, "I want", r, 2);
    assert "I want"[..2] + "wants" + "I want"[6..] == "I wants";
    assert r - {2} == map[1 := "the user"];
  }

  /** Then the subject. */
  lemma ReplaceSubjectNext()
    ensures ReplaceWordsInSentence(IWant, "I wants", map[1 := "the user"]) == Success("the user wants")
  {
    ReplaceStep(IWant, "I wants", map[1 := "the user"], 1);
    assert "I wants"[..0] + "the user" + "I wants"[1..] == "the user wants";
    assert map[1 := "the user"] - {1} == map[];
  }

  /* ---------------------------------------------------------------------
     The splicer
     --------------------------------------------------------------------- */

  /** The largest of a non-empty set of indices. */
  function Max(keys: set<int>): (m: int)
    requires exists k :: k in keys
    ensures m in keys && forall k :: k in keys ==> k <= m
  {
    MaxExists(keys);
    var m :| m in keys && forall k :: k in keys ==> k <= m;
    m
  }

  lemma MaxExists(keys: set<int>)
    requires exists k :: k in keys
    ensures exists m :: m in keys && forall k :: k in keys ==> k <= m
    decreases |keys|
  {
    var x :| x in keys;
    var rest := keys - {x};
    if exists k :: k in rest {
      MaxExists(rest);
      var m :| m in rest && forall k :: k in rest ==> k <= m;
      var top := if x > m then x else m;
      assert top in keys;
      forall k | k in keys ensures k <= top {
        if k != x {
          assert k in rest;
        }
      }
    } else {
      assert keys == {x};
    }
  }

  /** The keys in ascending order. */
  function Ascending(keys: set<int>): (r: seq<int>)
    ensures forall k :: k in r <==> k in keys
    ensures forall i, j :: 0 <= i < j < |r| ==> r[i] < r[j]
    decreases |keys|
  {
    if exists k :: k in keys then
      var m := Max(keys);
      var rest := Ascending(keys - {m});
      assert forall i :: 0 <= i < |rest| ==> rest[i] < m by {
        forall i | 0 <= i < |rest| ensures rest[i] < m {
          assert rest[i] in keys - {m};
        }
      }
      SortedSnoc(rest, m);
      rest + [m]
    else []
  }

  /** A key above all of a sorted list extends it sorted. */
  lemma SortedSnoc(xs: seq<int>, m: int)
    requires forall i, j :: 0 <= i < j < |xs| ==> xs[i] < xs[j]
    requires forall i :: 0 <= i < |xs| ==> xs[i] < m
    ensures forall i, j :: 0 <= i < j < |xs + [m]| ==> (xs + [m])[i] < (xs + [m])[j]
  {
    var r := xs + [m];
    forall i, j | 0 <= i < j < |r| ensures r[i] < r[j] {
      assert r[i] == xs[i];
      if j < |xs| {
        assert r[j] == xs[j];
      }
    }
  }

  /** One token's text replaced: the characters from its begin to its end
      give way to `rep`. Java's `substring` throws for a position outside
      the current text. */
  function SpliceToken(text: string, t: Token, rep: string): (r: Result<string>)
    ensures r.Success? <==> 0 <= t.begin <= |text| && 0 <= t.end <= |text|
    ensures r.Success? ==> StartsWith(r.value, text[..t.begin] + rep) && EndsWith(r.value, text[t.end..])
  {
    if 0 <= t.begin <= |text| && 0 <= t.end <= |text| then
      var r := text[..t.begin] + rep + text[t.end..];
      assert r[..t.begin + |rep|] == text[..t.begin] + rep;
      assert r[|r| - |text[t.end..]|..] == text[t.end..];
      Success(r)
    else Failure(IndexOutOfBounds)
  }

  /** `replaceWordsInSentence`: the replacements are applied from the
      largest token index down, each at the character positions the parse
      gives for its token. */
  function ReplaceWordsInSentence(s: Sentence, text: string, replacements: map<int, string>): (r: Result<string>)
    ensures replacements == map[] ==> r == Success(text)
    ensures (exists k :: k in replacements && !IsNode(s, k)) ==> r.Failure?
    decreases |replacements.Keys|
  {
    if exists k :: k in replacements then
      var m := Max(replacements.Keys);
      var rest := replacements - {m};
      assert rest.Keys == replacements.Keys - {m};
      if !IsNode(s, m) then Failure(NoSuchNode)
      else
        match SpliceToken(text, s.tokens[m - 1], replacements[m])
        case Failure(e) => Failure(e)
        case Success(next) =>
          assert forall k :: k in replacements && !IsNode(s, k) ==> k in rest;
          ReplaceWordsInSentence(s, next, rest)
    else Success(text)
  }

  /** A replacement at a token's characters. */
  datatype Edit = Edit(begin: int, end: int, text: string)

  /** The edits for `keys`, read from the parse. */
  function EditsOf(s: Sentence, replacements: map<int, string>, keys: seq<int>): (r: seq<Edit>)
    requires forall i :: 0 <= i < |keys| ==> keys[i] in replacements && IsNode(s, keys[i])
  {
    seq(|keys|, i requires 0 <= i < |keys| && IsNode(s, keys[i]) && keys[i] in replacements =>
      Edit(s.tokens[keys[i] - 1].begin, s.tokens[keys[i] - 1].end, replacements[keys[i]]))
  }

  /** The edits lie inside the text from `pos` to `bound`, each begins no
      later than it ends, and each ends no later than the next begins: the
      first lies between `pos` and `bound`, the rest after its end. */
  predicate EditsWithin(edits: seq<Edit>, pos: int, bound: int)
    decreases |edits|
  {
    0 <= pos <= bound
    && (edits != [] ==>
      pos <= edits[0].begin <= edits[0].end <= bound && EditsWithin(edits[1..], edits[0].end, bound))
  }

  /** The reference splice, left to right: the text between edits is
      copied and each edit's text takes its span's place. */
  function SpliceFrom(text: string, edits: seq<Edit>, pos: int): (r: string)
    requires EditsWithin(edits, pos, |text|)
    decreases |edits|
  {
    if edits == [] then text[pos..]
    else text[pos..edits[0].begin] + edits[0].text + SpliceFrom(text, edits[1..], edits[0].end)
  }

  /** The token spans of the replaced tokens follow the token order, do not
      overlap, and lie inside the first `bound` characters. */
  predicate SpansWithin(s: Sentence, replacements: map<int, string>, bound: int) {
    0 <= bound
    && (forall k :: k in replacements ==>
      IsNode(s, k) && 0 <= s.tokens[k - 1].begin <= s.tokens[k - 1].end <= bound)
    && (forall k1, k2 :: k1 in replacements && k2 in replacements && k1 < k2 ==>
      s.tokens[k1 - 1].end <= s.tokens[k2 - 1].begin)
  }

  /* ---------------------------------------------------------------------
     Properties of the splicer
     --------------------------------------------------------------------- */

  /** The replacement with the largest index splices a prefix and
      appends the rest unchanged, with or without more text after it. */
  lemma SpliceTokenAppend(p: string, x: string, t: Token, rep: string)
    requires 0 <= t.begin <= t.end <= |p|
    ensures SpliceToken(p, t, rep) == Success(p[..t.begin] + rep + p[t.end..])
    ensures SpliceToken(p + x, t, rep) == Success(p[..t.begin] + rep + p[t.end..] + x)
  {
    assert (p + x)[..t.begin] == p[..t.begin];
    assert (p + x)[t.end..] == p[t.end..] + x;
    assert p[..t.begin] + rep + (p[t.end..] + x) == p[..t.begin] + rep + p[t.end..] + x;
  }

  /** One step of the splicer: the largest key's token is replaced and
      the other keys remain. */
  lemma ReplaceStep(s: Sentence, text: string, replacements: map<int, string>, m: int)
    requires m in replacements && forall k :: k in replacements ==> k <= m
    requires IsNode(s, m) && 0 <= s.tokens[m - 1].begin <= s.tokens[m - 1].end <= |text|
    ensures var t := s.tokens[m - 1];
      ReplaceWordsInSentence(s, text, replacements)
      == ReplaceWordsInSentence(s, text[..t.begin] + replacements[m] + text[t.end..], replacements - {m})
  {
    var t := s.tokens[m - 1];
    var next := text[..t.begin] + replacements[m] + text[t.end..];
    SpliceTokenValue(text, t, replacements[m]);
    MaxIs(replacements.Keys, m);
    ReplaceUnfold(s, text, replacements, m, next);
  }

  /** The largest key is the one all others are below. */
  lemma MaxIs(keys: set<int>, m: int)
    requires m in keys && forall k :: k in keys ==> k <= m
    ensures (exists k :: k in keys) && Max(keys) == m
  {
  }

  /** A splice inside the text succeeds with the spliced text. */
  lemma SpliceTokenValue(text: string, t: Token, rep: string)
    requires 0 <= t.begin <= t.end <= |text|
    ensures SpliceToken(text, t, rep) == Success(text[..t.begin] + rep + text[t.end..])
  {
  }

  /** One unfolding of the splicer at its largest key. */
  lemma ReplaceUnfold(s: Sentence, text: string, replacements: map<int, string>, m: int, next: string)
    requires m in replacements && (exists k :: k in replacements) && Max(replacements.Keys) == m
    requires IsNode(s, m) && SpliceToken(text, s.tokens[m - 1], replacements[m]) == Success(next)
    ensures ReplaceWordsInSentence(s, text, replacements) == ReplaceWordsInSentence(s, next, replacements - {m})
  {
  }

  /** Without the largest key, the spans lie before that key's span. */
  lemma SpansBelowMax(s: Sentence, replacements: map<int, string>, m: int, bound: int)
    requires SpansWithin(s, replacements, bound) && m in replacements
    requires forall k :: k in replacements ==> k <= m
    ensures SpansWithin(s, replacements - {m}, s.tokens[m - 1].begin)
  {
    var rest := replacements - {m};
    forall k | k in rest
      ensures IsNode(s, k) && 0 <= s.tokens[k - 1].begin <= s.tokens[k - 1].end <= s.tokens[m - 1].begin
    {
      assert k in replacements && k < m;
    }
  }

  /** A bound can be raised. */
  lemma SpansWeaken(s: Sentence, replacements: map<int, string>, bound: int, bound': int)
    requires SpansWithin(s, replacements, bound) && bound <= bound'
    ensures SpansWithin(s, replacements, bound')
  {
  }

  /** Replacing only inside a prefix leaves the rest of the text alone. */
  lemma {:induction false} ReplaceInPrefix(s: Sentence, p: string, x: string, replacements: map<int, string>)
    requires SpansWithin(s, replacements, |p|)
    ensures ReplaceWordsInSentence(s, p + x, replacements).Success?
    ensures ReplaceWordsInSentence(s, p, replacements).Success?
    ensures ReplaceWordsInSentence(s, p + x, replacements).value == ReplaceWordsInSentence(s, p, replacements).value + x
    decreases |replacements.Keys|
  {
    if exists k :: k in replacements {
      var m := Max(replacements.Keys);
      var rest := replacements - {m};
      FewerKeys(replacements, m);
      SpansAfterSplice(s, p, replacements, m);
      var t := s.tokens[m - 1];
      ReplaceInPrefix(s, p[..t.begin] + replacements[m] + p[t.end..], x, rest);
      PrefixStep(s, p, x, replacements, m);
    }
  }

  /** Removing a key leaves fewer keys. */
  lemma FewerKeys(replacements: map<int, string>, m: int)
    requires m in replacements
    ensures |(replacements - {m}).Keys| < |replacements.Keys|
  {
    assert (replacements - {m}).Keys == replacements.Keys - {m};
  }

  /** After the largest key's splice inside a prefix, the other keys' spans
      lie inside the spliced prefix. */
  lemma SpansAfterSplice(s: Sentence, p: string, replacements: map<int, string>, m: int)
    requires SpansWithin(s, replacements, |p|) && m in replacements
    requires forall k :: k in replacements ==> k <= m
    ensures IsNode(s, m) && 0 <= s.tokens[m - 1].begin <= s.tokens[m - 1].end <= |p|
    ensures var t := s.tokens[m - 1];
      SpansWithin(s, replacements - {m}, |p[..t.begin] + replacements[m] + p[t.end..]|)
  {
    var t := s.tokens[m - 1];
    SpansBelowMax(s, replacements, m, |p|);
    SpansWeaken(s, replacements - {m}, t.begin, |p[..t.begin] + replacements[m] + p[t.end..]|);
  }

  /** The induction step of `ReplaceInPrefix`: what holds after the largest
      key's splice holds before it. */
  lemma PrefixStep(s: Sentence, p: string, x: string, replacements: map<int, string>, m: int)
    requires m in replacements && forall k :: k in replacements ==> k <= m
    requires IsNode(s, m) && 0 <= s.tokens[m - 1].begin <= s.tokens[m - 1].end <= |p|
    requires var t := s.tokens[m - 1]; var p' := p[..t.begin] + replacements[m] + p[t.end..];
      var after := ReplaceWordsInSentence(s, p' + x, replacements - {m}); var short := ReplaceWordsInSentence(s, p', replacements - {m});
      after.Success? && short.Success? && after.value == short.value + x
    ensures ReplaceWordsInSentence(s, p + x, replacements).Success?
    ensures ReplaceWordsInSentence(s, p, replacements).Success?
    ensures ReplaceWordsInSentence(s, p + x, replacements).value == ReplaceWordsInSentence(s, p, replacements).value + x
  {
    var t := s.tokens[m - 1];
    SplicePrefix(p, x, t.begin, t.end, replacements[m]);
    ReplaceStep(s, p, replacements, m);
    ReplaceStep(s, p + x, replacements, m);
  }

  /** A splice inside a prefix leaves what follows the prefix in place. */
  lemma SplicePrefix(p: string, x: string, b: int, e: int, rep: string)
    requires 0 <= b <= e <= |p|
    ensures (p + x)[..b] + rep + (p + x)[e..] == p[..b] + rep + p[e..] + x
  {
    assert (p + x)[..b] == p[..b];
    assert (p + x)[e..] == p[e..] + x;
  }

  /** One more edit after the others keeps them in order. */
  lemma {:induction false} EditsSnocWithin(edits: seq<Edit>, e: Edit, pos: int, bound: int)
    requires EditsWithin(edits, pos, e.begin) && e.begin <= e.end <= bound
    ensures EditsWithin(edits + [e], pos, bound)
    decreases |edits|
  {
    if edits == [] {
      assert edits + [e] == [e];
      assert [e][1..] == [];
    } else {
      assert (edits + [e])[1..] == edits[1..] + [e];
      EditsSnocWithin(edits[1..], e, edits[0].end, bound);
    }
  }

  /** Splicing with one more edit at the end equals splicing the text up to
      that edit and appending the edit and the rest of the text. */
  lemma {:induction false} SpliceSnoc(text: string, edits: seq<Edit>, e: Edit, pos: int)
    requires EditsWithin(edits, pos, e.begin) && e.begin <= e.end <= |text|
    ensures EditsWithin(edits + [e], pos, |text|)
      && SpliceFrom(text, edits + [e], pos) == SpliceFrom(text[..e.begin], edits, pos) + e.text + text[e.end..]
    decreases |edits|
  {
    EditsSnocWithin(edits, e, pos, |text|);
    var all := edits + [e];
    if edits == [] {
      assert all == [e];
      assert text[..e.begin][pos..] == text[pos..e.begin];
    } else {
      var e0 := edits[0];
      assert all[0] == e0 && all[1..] == edits[1..] + [e];
      SpliceSnoc(text, edits[1..], e, e0.end);
      var pre := text[..e.begin];
      assert pos <= e0.begin <= e0.end <= e.begin;
      SliceOfPrefix(text, e.begin, pos, e0.begin);
      ConcatRegroup(text[pos..e0.begin] + e0.text, SpliceFrom(pre, edits[1..], e0.end), e.text, text[e.end..]);
    }
  }

  /** A slice of a prefix is a slice of the whole. */
  lemma SliceOfPrefix(text: string, n: int, a: int, b: int)
    requires 0 <= a <= b <= n <= |text|
    ensures text[..n][a..b] == text[a..b]
  {
  }

  lemma ConcatRegroup(a: string, x: string, b: string, c: string)
    ensures a + (x + b + c) == a + x + b + c
  {
  }

  /** The edits of ascending keys meet the splice's precondition. */
  lemma EditsOrdered(s: Sentence, replacements: map<int, string>, keys: seq<int>, bound: int)
    requires SpansWithin(s, replacements, bound)
    requires forall i :: 0 <= i < |keys| ==> keys[i] in replacements
    requires forall i, j :: 0 <= i < j < |keys| ==> keys[i] < keys[j]
    ensures EditsWithin(EditsOf(s, replacements, keys), 0, bound)
  {
    EditsOrderedFrom(s, replacements, keys, 0, bound);
  }

  /** The same, from a position no later than any of the keys' spans. */
  lemma {:induction false} EditsOrderedFrom(s: Sentence, replacements: map<int, string>, keys: seq<int>, pos: int, bound: int)
    requires SpansWithin(s, replacements, bound) && 0 <= pos <= bound
    requires forall i :: 0 <= i < |keys| ==> keys[i] in replacements
    requires forall i :: 0 <= i < |keys| ==> pos <= s.tokens[keys[i] - 1].begin
    requires forall i, j :: 0 <= i < j < |keys| ==> keys[i] < keys[j]
    ensures EditsWithin(EditsOf(s, replacements, keys), pos, bound)
    decreases |keys|
  {
    var edits := EditsOf(s, replacements, keys);
    if keys != [] {
      var k := keys[0];
      var tail := keys[1..];
      assert edits[1..] == EditsOf(s, replacements, tail);
      forall i | 0 <= i < |tail| ensures s.tokens[k - 1].end <= s.tokens[tail[i] - 1].begin {
        assert tail[i] == keys[i + 1] && k < tail[i];
      }
      EditsOrderedFrom(s, replacements, tail, s.tokens[k - 1].end, bound);
    }
  }

  /** The edits of a key list extended at the end by a larger key. */
  lemma EditsOfSnoc(s: Sentence, replacements: map<int, string>, rest: map<int, string>, keys: seq<int>, m: int)
    requires m in replacements && IsNode(s, m) && rest == replacements - {m}
    requires forall i :: 0 <= i < |keys| ==> keys[i] in rest && IsNode(s, keys[i])
    ensures EditsOf(s, replacements, keys + [m])
      == EditsOf(s, rest, keys) + [Edit(s.tokens[m - 1].begin, s.tokens[m - 1].end, replacements[m])]
  {
    var a := EditsOf(s, replacements, keys + [m]);
    var b := EditsOf(s, rest, keys) + [Edit(s.tokens[m - 1].begin, s.tokens[m - 1].end, replacements[m])];
    forall i | 0 <= i < |a| ensures a[i] == b[i] {
      if i < |keys| {
        assert (keys + [m])[i] == keys[i];
        assert rest[keys[i]] == replacements[keys[i]];
      }
    }
  }

  /** The splicer's result on the whole text, from its result on the text
      before the largest key's token. */
  lemma ReplaceLastStep(s: Sentence, text: string, replacements: map<int, string>, m: int, before: string)
    requires SpansWithin(s, replacements, |text|)
    requires m in replacements && forall k :: k in replacements ==> k <= m
    requires ReplaceWordsInSentence(s, text[..s.tokens[m - 1].begin], replacements - {m}) == Success(before)
    ensures ReplaceWordsInSentence(s, text, replacements)
      == Success(before + (replacements[m] + text[s.tokens[m - 1].end..]))
  {
    var t := s.tokens[m - 1];
    var p := text[..t.begin];
    var x := replacements[m] + text[t.end..];
    ReplaceStep(s, text, replacements, m);
    assert text[..t.begin] + replacements[m] + text[t.end..] == p + x;
    SpansBelowMax(s, replacements, m, |text|);
    ReplaceInPrefix(s, p, x, replacements - {m});
  }

  /** The ascending keys end with the largest. */
  lemma AscendingSnoc(keys: set<int>, m: int)
    requires m in keys && forall k :: k in keys ==> k <= m
    ensures Ascending(keys) == Ascending(keys - {m}) + [m]
  {
    assert Max(keys) == m;
  }

  /** The induction step: if the splicer gives the left-to-right splice on
      the text before the largest key's token, it does on the whole text. */
  lemma DescendingStep(s: Sentence, text: string, replacements: map<int, string>, m: int)
    requires SpansWithin(s, replacements, |text|)
    requires m in replacements && forall k :: k in replacements ==> k <= m
    requires var rest := replacements - {m}; var p := text[..s.tokens[m - 1].begin];
      EditsWithin(EditsOf(s, rest, Ascending(rest.Keys)), 0, |p|)
      && ReplaceWordsInSentence(s, p, rest) == Success(SpliceFrom(p, EditsOf(s, rest, Ascending(rest.Keys)), 0))
    ensures EditsWithin(EditsOf(s, replacements, Ascending(replacements.Keys)), 0, |text|)
    ensures ReplaceWordsInSentence(s, text, replacements)
      == Success(SpliceFrom(text, EditsOf(s, replacements, Ascending(replacements.Keys)), 0))
  {
    var keys := Ascending(replacements.Keys);
    EditsOrdered(s, replacements, keys, |text|);
    var rest := replacements - {m};
    var t := s.tokens[m - 1];
    var e := Edit(t.begin, t.end, replacements[m]);
    var restKeys := Ascending(rest.Keys);
    AscendingSnoc(replacements.Keys, m);
    var restEdits := EditsOf(s, rest, restKeys);
    EditsOfSnoc(s, replacements, rest, restKeys, m);
    var before := SpliceFrom(text[..t.begin], restEdits, 0);
    ReplaceLastStep(s, text, replacements, m, before);
    SpliceSnoc(text, restEdits, e, 0);
    ConcatAssoc(before, e.text, text[e.end..]);
  }

  /** Applied from the largest index down, the replacements give the
      left-to-right splice, provided the token spans follow the token order
      and do not overlap: no replacement shifts the position of one still
      to come. */
  lemma {:induction false} DescendingIsLeftToRight(s: Sentence, text: string, replacements: map<int, string>)
    requires SpansWithin(s, replacements, |text|)
    ensures EditsWithin(EditsOf(s, replacements, Ascending(replacements.Keys)), 0, |text|)
    ensures ReplaceWordsInSentence(s, text, replacements)
      == Success(SpliceFrom(text, EditsOf(s, replacements, Ascending(replacements.Keys)), 0))
    decreases |replacements.Keys|
  {
    if exists k :: k in replacements {
      var m := Max(replacements.Keys);
      var rest := replacements - {m};
      FewerKeys(replacements, m);
      var p := text[..s.tokens[m - 1].begin];
      SpansBelowMax(s, replacements, m, |text|);
      DescendingIsLeftToRight(s, p, rest);
      DescendingStep(s, text, replacements, m);
    } else {
      assert Ascending(replacements.Keys) == [];
    }
  }

  lemma ConcatAssoc(a: string, b: string, c: string)
    ensures a + (b + c) == a + b + c
  {
  }
}
