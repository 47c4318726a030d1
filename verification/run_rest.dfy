/** The REST runner of the completeness side: cutting the user story and
    the acceptance criteria out of a document's text, and the per-document
    loop that builds the response list. The extractors, the calculator and
    the JSON rendering behind each document are not modelled: they are one
    function parameter that either scores the parsed story or fails with a
    message. */
module RestRunner {
  import opened Wrappers
  import opened Strings
  import opened UserStories

  /** The marker around the user story. */
  const StoryMarker := "###"
  /** The marker around the acceptance criteria. */
  const CriteriaMarker := "+++"

  /** One document of the request's dataset. */
  datatype Document = Document(id: int, text: string)

  /** What the unmodelled analysis of one parsed story gives: the completeness
      metric, or the message of the exception it threw. */
  datatype Outcome = Scored(name: string, value: real) | Crashed(message: string)

  /** One element of the response list. */
  datatype Element =
    | Scores(id: int, metric: string, value: real)   // the response object of one document
    | ErrorObject(message: string)                   // { <exception message>: <stack trace> }
    | Trailer(errorCount: int)                       // { "errorCount": n }

  /** The text strictly between the first `marker` and the next one searched
      from one past it, after every line feed has been deleted. Java's
      `substring` throws unless that next marker starts at or after the end
      of the first. */
  function ExtractSection(input: string, marker: string): (r: Result<string>)
    requires |marker| == 3
    ensures r.Success? <==> SectionBounds(RemoveChar(input, '\n'), marker)
    ensures r.Success? ==> '\n' !in r.value
    ensures r.Success? ==> NoOccurrence(marker, r.value)
    ensures r.Success? ==> Contains(RemoveChar(input, '\n'), marker + r.value + marker)
  {
    var s := RemoveChar(input, '\n');
    var start := IndexOf(s, marker);
    if SectionBounds(s, marker) then
      var end := IndexOfFrom(s, marker, start + 1);
      SectionHasNoMarker(s, marker, start, end);
      MarkedSection(s, marker, start, end);
      Success(s[start + 3..end])
    else Failure(IndexOutOfBounds)
  }

  /** The first marker exists and the next one starts after its end. */
  predicate SectionBounds(s: string, marker: string) {
    var start := IndexOf(s, marker);
    start >= 0 && IndexOfFrom(s, marker, start + 1) >= start + |marker|
  }

  /** `marker` occurs nowhere in `s`. */
  predicate NoOccurrence(marker: string, s: string) {
    forall k :: 0 <= k <= |s| ==> !OccursAt(marker, s, k)
  }

  /** Between the end of a marker and the next marker there is no marker. */
  lemma SectionHasNoMarker(s: string, marker: string, start: int, end: int)
    requires |marker| == 3 && 0 <= start && start + 3 <= end
    requires end == IndexOfFrom(s, marker, start + 1)
    ensures end <= |s|
    ensures NoOccurrence(marker, s[start + 3..end])
  {
    var text := s[start + 3..end];
    forall k | OccursAt(marker, text, k) ensures false {
      assert s[start + 3 + k..start + 3 + k + 3] == text[k..k + 3];
      assert OccursAt(marker, s, start + 3 + k);
    }
  }

  /** The marker, the section and the next marker stand together in the
      text. */
  lemma MarkedSection(s: string, marker: string, start: int, end: int)
    requires |marker| == 3 && 0 <= start && start + 3 <= end
    requires OccursAt(marker, s, start) && OccursAt(marker, s, end)
    ensures Contains(s, marker + s[start + 3..end] + marker)
  {
    var m := marker + s[start + 3..end] + marker;
    assert s[start..end + 3] == m;
    assert OccursAt(m, s, start);
    ContainsIff(s, m);
  }

  /** An input whose text, once its line feeds are deleted, is a lead, a
      marker, a section, a marker and a trail gives back that section, as
      long as no other marker starts before the second one. */
  lemma SectionRoundTrip(input: string, pre: string, body: string, post: string, marker: string)
    requires |marker| == 3 && RemoveChar(input, '\n') == pre + marker + body + marker + post
    requires NoOtherMarker(pre + marker + body + marker + post, marker, |pre|, |pre| + 3 + |body|)
    ensures ExtractSection(input, marker) == Success(body)
  {
    var t, start, end := pre + marker + body + marker + post, |pre|, |pre| + 3 + |body|;
    assert IndexOf(t, marker) == start && IndexOfFrom(t, marker, start + 1) == end && t[start + 3..end] == body by {
      MarkedPairFound(pre, body, post, marker);
    }
    SectionIs(input, t, marker, start, end, body);
  }

  /** `SectionBetween` with the section named. */
  lemma SectionIs(input: string, t: string, marker: string, start: int, end: int, body: string)
    requires |marker| == 3 && RemoveChar(input, '\n') == t
    requires start >= 0 && IndexOf(t, marker) == start
    requires end >= start + 3 && IndexOfFrom(t, marker, start + 1) == end
    requires end <= |t| && t[start + 3..end] == body
    ensures ExtractSection(input, marker) == Success(body)
  {
    SectionBetween(input, t, marker, start, end);
  }

  /** No marker starts before `end` in `t`, except the one at `start`. */
  predicate NoOtherMarker(t: string, marker: string, start: int, end: int) {
    forall k :: 0 <= k < end && k != start ==> !OccursAt(marker, t, k)
  }

  /** In a lead, a marker, a section, a marker and a trail, the searches
      find the two markers around the section. */
  lemma MarkedPairFound(pre: string, body: string, post: string, marker: string)
    requires |marker| == 3
    requires NoOtherMarker(pre + marker + body + marker + post, marker, |pre|, |pre| + 3 + |body|)
    ensures var t := pre + marker + body + marker + post;
      IndexOf(t, marker) == |pre| && IndexOfFrom(t, marker, |pre| + 1) == |pre| + 3 + |body|
      && t[|pre| + 3..|pre| + 3 + |body|] == body
  {
    var t := pre + marker + body + marker + post;
    var start, end := |pre|, |pre| + 3 + |body|;
    assert IndexOf(t, marker) == start by {
      assert t[start..start + 3] == marker;
      FirstOccurrence(t, marker, 0, start);
    }
    assert IndexOfFrom(t, marker, start + 1) == end by {
      assert t[end..end + 3] == marker;
      FirstOccurrence(t, marker, start + 1, end);
    }
    assert t[start + 3..end] == body;
  }

  /** An occurrence with none before it, from `from` on, is what the search
      finds. */
  lemma FirstOccurrence(t: string, marker: string, from: nat, at: int)
    requires from <= at && OccursAt(marker, t, at)
    requires forall k :: from <= k < at ==> !OccursAt(marker, t, k)
    ensures IndexOfFrom(t, marker, from) == at
  {
  }

  /** `extractUserStoryString`: the text between the first two "###"
      markers, line feeds removed. */
  function ExtractUserStoryString(input: string): (r: Result<string>)
    ensures r.Success? <==> SectionBounds(RemoveChar(input, '\n'), StoryMarker)
    ensures r.Success? ==> NoOccurrence(StoryMarker, r.value)
    ensures r.Success? ==> Contains(RemoveChar(input, '\n'), StoryMarker + r.value + StoryMarker)
  {
    ExtractSection(input, StoryMarker)
  }

  /** `extractAcceptanceCriteriaString`: the text between the first two
      "+++" markers, line feeds removed. */
  function ExtractAcceptanceCriteriaString(input: string): (r: Result<string>)
    ensures r.Success? <==> SectionBounds(RemoveChar(input, '\n'), CriteriaMarker)
    ensures r.Success? ==> NoOccurrence(CriteriaMarker, r.value)
    ensures r.Success? ==> Contains(RemoveChar(input, '\n'), CriteriaMarker + r.value + CriteriaMarker)
  {
    ExtractSection(input, CriteriaMarker)
  }

  /** The user story is the text between the first two "###" markers of
      the input with its line feeds deleted. */
  lemma StoryRoundTrip(input: string, pre: string, body: string, post: string)
    requires RemoveChar(input, '\n') == pre + StoryMarker + body + StoryMarker + post
    requires NoOtherMarker(pre + StoryMarker + body + StoryMarker + post, StoryMarker, |pre|, |pre| + 3 + |body|)
    ensures ExtractUserStoryString(input) == Success(body)
  {
    SectionRoundTrip(input, pre, body, post, StoryMarker);
  }

  /** The acceptance criteria are the text between the first two "+++"
      markers of the input with its line feeds deleted. */
  lemma CriteriaRoundTrip(input: string, pre: string, body: string, post: string)
    requires RemoveChar(input, '\n') == pre + CriteriaMarker + body + CriteriaMarker + post
    requires NoOtherMarker(pre + CriteriaMarker + body + CriteriaMarker + post, CriteriaMarker, |pre|, |pre| + 3 + |body|)
    ensures ExtractAcceptanceCriteriaString(input) == Success(body)
  {
    SectionRoundTrip(input, pre, body, post, CriteriaMarker);
  }

  /** A line feed inside the first section is deleted before the search:
      "###a\n###b###" gives "a". */
  lemma LineFeedStoryExample()
    ensures ExtractUserStoryString(StoryMarker + "a\n" + StoryMarker + "b" + StoryMarker) == Success("a")
  {
    var a, b := StoryMarker + "a", StoryMarker + "b" + StoryMarker;
    assert StoryMarker + "a\n" + StoryMarker + "b" + StoryMarker == a + "\n" + b;
    LineFeedDeleted(a, b);
    assert a + b == "" + StoryMarker + "a" + StoryMarker + ("b" + StoryMarker);
    NoEarlyMarker(a + b);
    StoryRoundTrip(a + "\n" + b, "", "a", "b" + StoryMarker);
  }

  /** Deleting a line feed between two texts without one joins them. */
  lemma LineFeedDeleted(a: string, b: string)
    requires '\n' !in a && '\n' !in b
    ensures RemoveChar(a + "\n" + b, '\n') == a + b
  {
    var n: string := ['\n'];
    assert n[1..] == [];
    assert RemoveChar(n, '\n') == RemoveChar(n[1..], '\n') == [];
    RemoveCharAppend(a + n, b, '\n');
    RemoveCharAppend(a, n, '\n');
    assert RemoveChar(a + n, '\n') == a;
  }

  /** In "###a###b###" no marker starts at 1, 2 or 3. */
  lemma NoEarlyMarker(t: string)
    requires t == StoryMarker + "a" + StoryMarker + "b" + StoryMarker
    ensures NoOtherMarker(t, StoryMarker, 0, 4)
  {
    forall k | 0 <= k < 4 && k != 0 ensures !OccursAt(StoryMarker, t, k) {
      assert t[3] == 'a' && t[k..k + 3][3 - k] == 'a';
    }
  }

  /** The work inside the `try`: the user-story constructor and the
      unmodelled analysis of the parsed story. */
  datatype Pipeline = Pipeline(parse: string -> Result<UserStory>, analyze: (UserStory, string) -> Outcome)

  /** The element of one document whose sections were found: the story is
      parsed and analysed inside the `try`, any exception becomes an error
      object keyed by its message. */
  function DocumentElement(pl: Pipeline, id: int, storyText: string, criteriaText: string): (e: Element)
    ensures !e.Trailer?
    ensures e.Scores? ==> e.id == id
  {
    match pl.parse(storyText)
    case Failure(err) => ErrorObject(if err.NoUserStory? then err.message else "")
    case Success(story) =>
      match pl.analyze(story, criteriaText)
      case Scored(name, value) => Scores(id, name, value)
      case Crashed(message) => ErrorObject(message)
  }

  /** The loop body for one document: the sections are cut before the `try`,
      so a missing marker aborts the whole request. */
  function ProcessDocument(pl: Pipeline, d: Document): (r: Result<Element>)
    ensures r.Failure? <==> ExtractUserStoryString(d.text).Failure? || ExtractAcceptanceCriteriaString(d.text).Failure?
    ensures r.Success? ==> !r.value.Trailer?
  {
    var storyText :- ExtractUserStoryString(d.text);
    var criteriaText :- ExtractAcceptanceCriteriaString(d.text);
    Success(DocumentElement(pl, d.id, storyText, criteriaText))
  }

  /** The loop body as a value, so that the batch layer below reasons about
      any per-document step without unfolding the section search. */
  function Processor(pl: Pipeline): Document -> Result<Element> {
    d => ProcessDocument(pl, d)
  }

  /** Some document's step fails. */
  predicate SomeFails(process: Document -> Result<Element>, docs: seq<Document>) {
    exists i :: 0 <= i < |docs| && process(docs[i]).Failure?
  }

  /** Some document lacks one of its sections. */
  predicate SomeSectionMissing(pl: Pipeline, docs: seq<Document>) {
    SomeFails(Processor(pl), docs)
  }

  /** The elements of the documents, in order. */
  function Elements(process: Document -> Result<Element>, docs: seq<Document>): Result<seq<Element>> {
    if docs == [] then Success([])
    else
      var before :- Elements(process, docs[..|docs| - 1]);
      var e :- process(docs[|docs| - 1]);
      Success(before + [e])
  }

  /** `addAcceptanceCriteriaToResponse`: one element per document in input
      order, then the trailer with the error counter, which nothing
      increments; a document without its sections aborts the request. */
  method AddAcceptanceCriteriaToResponse(pl: Pipeline, docs: seq<Document>)
    returns (r: Result<seq<Element>>)
    ensures r.Failure? <==> SomeSectionMissing(pl, docs)
    ensures r.Success? ==> |r.value| == |docs| + 1 && r.value[|docs|] == Trailer(0)
    ensures r.Success? ==> forall i :: 0 <= i < |docs| ==> r.value[i] == Processor(pl)(docs[i]).value
  {
    r := RespondEach(Processor(pl), docs);
  }

  /** The loop of `addAcceptanceCriteriaToResponse` over any per-document
      step: the first failing step aborts, otherwise the trailer with the
      counter, which stays 0, closes the list. */
  method RespondEach(process: Document -> Result<Element>, docs: seq<Document>)
    returns (r: Result<seq<Element>>)
    ensures r.Failure? <==> SomeFails(process, docs)
    ensures r.Success? ==> |r.value| == |docs| + 1 && r.value[|docs|] == Trailer(0)
    ensures r.Success? ==> forall i :: 0 <= i < |docs| ==> r.value[i] == process(docs[i]).value
  {
    var responseList: seq<Element> := [];
    var errors := 0;
    var i := 0;
    while i < |docs|
      invariant 0 <= i <= |docs|
      invariant |responseList| == i
      invariant forall j :: 0 <= j < i ==> process(docs[j]).Success?
      invariant forall j :: 0 <= j < i ==> responseList[j] == process(docs[j]).value
    {
      var e := process(docs[i]);
      if e.Failure? {
        return Failure(e.error);
      }
      responseList := responseList + [e.value];
      i := i + 1;
    }
    r := Success(responseList + [Trailer(errors)]);
  }

  /** The number of error objects. */
  function ErrorCount(elements: seq<Element>): (n: nat)
    ensures n <= |elements|
    ensures n == 0 <==> forall i :: 0 <= i < |elements| ==> !elements[i].ErrorObject?
  {
    if elements == [] then 0
    else
      var init := elements[..|elements| - 1];
      assert forall i :: 0 <= i < |init| ==> init[i] == elements[i];
      ErrorCount(init) + (if elements[|elements| - 1].ErrorObject? then 1 else 0)
  }

  /** The response list with the trailer counting the documents whose
      analysis failed. */
  function CorrectedResponse(pl: Pipeline, docs: seq<Document>): (r: Result<seq<Element>>)
    ensures r.Failure? <==> SomeSectionMissing(pl, docs)
    ensures r.Success? ==> |r.value| == |docs| + 1
    ensures r.Success? ==> r.value[|docs|] == Trailer(ErrorCount(r.value[..|docs|]))
    ensures r.Success? ==> forall i :: 0 <= i < |docs| ==> r.value[i] == Processor(pl)(docs[i]).value
  {
    ElementsShape(Processor(pl), docs);
    var elements :- Elements(Processor(pl), docs);
    assert (elements + [Trailer(ErrorCount(elements))])[..|docs|] == elements;
    Success(elements + [Trailer(ErrorCount(elements))])
  }

  /* ---------------------------------------------------------------------
     Properties
     --------------------------------------------------------------------- */

  /** The elements are one per document, in input order, and exist exactly
      when every document has both sections. */
  lemma {:induction false} ElementsShape(process: Document -> Result<Element>, docs: seq<Document>)
    ensures Elements(process, docs).Failure? <==> SomeFails(process, docs)
    ensures Elements(process, docs).Success? ==>
      |Elements(process, docs).value| == |docs|
      && forall i :: 0 <= i < |docs| ==> Elements(process, docs).value[i] == process(docs[i]).value
  {
    if docs != [] {
      var init := docs[..|docs| - 1];
      ElementsShape(process, init);
      assert forall i :: 0 <= i < |init| ==> init[i] == docs[i];
      if SomeFails(process, docs) && !SomeFails(process, init) {
        assert process(docs[|docs| - 1]).Failure?;
      }
    }
  }

  /** The example document's text. */
  const ExampleText := "###x###+++y+++"

  /** The story markers of the example text are at 0 and 4. */
  lemma StoryMarkersExample(text: string)
    requires text == ExampleText
    ensures IndexOf(text, StoryMarker) == 0
    ensures IndexOfFrom(text, StoryMarker, 1) == 4
  {
    assert OccursAt(StoryMarker, text, 0);
    assert !OccursAt(StoryMarker, text, 1) by { assert text[1..4][2] == text[3] == 'x'; }
    assert !OccursAt(StoryMarker, text, 2) by { assert text[2..5][1] == text[3] == 'x'; }
    assert !OccursAt(StoryMarker, text, 3) by { assert text[3..6][0] == text[3] == 'x'; }
    assert OccursAt(StoryMarker, text, 4);
  }

  /** The first criteria marker of the example text is at 7. */
  lemma CriteriaStartExample(text: string)
    requires text == ExampleText
    ensures IndexOf(text, CriteriaMarker) == 7
  {
    forall k | 0 <= k < 7 ensures !OccursAt(CriteriaMarker, text, k) {
      assert text[k..k + 3][0] == text[k] != '+';
    }
    assert OccursAt(CriteriaMarker, text, 7);
  }

  /** The criteria marker searched from 8 is at 11. */
  lemma CriteriaEndExample(text: string)
    requires text == ExampleText
    ensures IndexOfFrom(text, CriteriaMarker, 8) == 11
  {
    assert !OccursAt(CriteriaMarker, text, 8) by { assert text[8..11][2] == text[10] == 'y'; }
    assert !OccursAt(CriteriaMarker, text, 9) by { assert text[9..12][1] == text[10] == 'y'; }
    assert !OccursAt(CriteriaMarker, text, 10) by { assert text[10..13][0] == text[10] == 'y'; }
    assert OccursAt(CriteriaMarker, text, 11);
  }

  /** The story section of the example text is "x". */
  lemma StorySectionExample(text: string)
    requires text == ExampleText
    ensures ExtractUserStoryString(text) == Success("x")
  {
    StoryFacts(text);
    OneCharSection(text, StoryMarker, 0, 'x');
  }

  /** What the story section of the example text depends on. */
  lemma StoryFacts(text: string)
    requires text == ExampleText
    ensures OneCharBetween(text, StoryMarker, 0, 'x')
  {
    ExampleLetters(text);
    RemoveCharAbsent(text);
    StoryMarkersExample(text);
  }

  /** The criteria section of the example text is "y". */
  lemma CriteriaSectionExample(text: string)
    requires text == ExampleText
    ensures ExtractAcceptanceCriteriaString(text) == Success("y")
  {
    CriteriaFacts(text);
    OneCharSection(text, CriteriaMarker, 7, 'y');
  }

  /** What the criteria section of the example text depends on. */
  lemma CriteriaFacts(text: string)
    requires text == ExampleText
    ensures OneCharBetween(text, CriteriaMarker, 7, 'y')
  {
    ExampleLetters(text);
    RemoveCharAbsent(text);
    CriteriaStartExample(text);
    CriteriaEndExample(text);
  }

  /** The letters between the markers of the example text. */
  lemma ExampleLetters(text: string)
    requires text == ExampleText
    ensures |text| == 14 && text[3] == 'x' && text[10] == 'y'
  {
  }

  /** The text holds no line feed, the first two markers are at `start`
      and `start + 4`, and `c` stands between them. */
  predicate OneCharBetween(input: string, marker: string, start: int, c: char) {
    |marker| == 3 && RemoveChar(input, '\n') == input
    && start >= 0 && IndexOf(input, marker) == start
    && IndexOfFrom(input, marker, start + 1) == start + 4
    && start + 3 < |input| && input[start + 3] == c
  }

  /** A section of one character between two markers. */
  lemma OneCharSection(input: string, marker: string, start: int, c: char)
    requires OneCharBetween(input, marker, start, c)
    ensures ExtractSection(input, marker) == Success([c])
  {
    SectionBetween(input, input, marker, start, start + 4);
    OneCharSlice(input, start + 3);
  }

  /** A one-character slice is that character. */
  lemma OneCharSlice(t: string, i: nat)
    requires i < |t|
    ensures t[i..i + 1] == [t[i]]
  {
  }

  /** Once line feeds are deleted, leaving `t`, the section is the text
      between the two marker positions the searches find. */
  lemma SectionBetween(input: string, t: string, marker: string, start: int, end: int)
    requires |marker| == 3 && RemoveChar(input, '\n') == t
    requires start >= 0 && IndexOf(t, marker) == start
    requires end >= start + 3 && IndexOfFrom(t, marker, start + 1) == end
    ensures end <= |t|
    ensures ExtractSection(input, marker) == Success(t[start + 3..end])
  {
  }

  /** The example text has no line feed to delete. */
  lemma RemoveCharAbsent(text: string)
    requires text == ExampleText
    ensures RemoveChar(text, '\n') == text
  {
    assert '\n' !in text;
  }

  /** A one-letter story has no role. */
  lemma NoRoleInX()
    ensures Parse("x") == Failure(NoUserStory(RoleMessage))
    ensures ParseAsWritten("x") == Failure(NoUserStory(RoleMessage))
  {
    var t := ReplaceDotRuns("x");
    assert |ToUpper(t)| <= 1;
    RoleErrorIff(t, AgainstKeptText);
    RoleErrorIff(t, AgainstInput);
  }

  /** A document whose story has no "as a" becomes an error object, with
      the constructor as written and with the corrected one alike. */
  lemma ErrorObjectExample(analyze: (UserStory, string) -> Outcome)
    ensures ProcessDocument(Pipeline(ParseAsWritten, analyze), Document(1, ExampleText)) == Success(ErrorObject(RoleMessage))
    ensures ProcessDocument(Pipeline(Parse, analyze), Document(1, ExampleText)) == Success(ErrorObject(RoleMessage))
  {
    StorySectionExample(ExampleText);
    CriteriaSectionExample(ExampleText);
    NoRoleInX();
  }

  /** A request of one document with both sections: the corrected trailer
      counts its element when it is an error object. */
  lemma CorrectedSingle(pl: Pipeline, d: Document, e: Element)
    requires ProcessDocument(pl, d) == Success(e)
    ensures CorrectedResponse(pl, [d]) == Success([e, Trailer(if e.ErrorObject? then 1 else 0)])
  {
    var docs := [d];
    assert Processor(pl)(docs[0]) == Success(e);
    ElementsShape(Processor(pl), docs);
    assert !SomeFails(Processor(pl), docs);
    assert Elements(Processor(pl), docs).value == [e];
    assert [e][..0] == [];
    assert ErrorCount([e]) == if e.ErrorObject? then 1 else 0;
    var r := CorrectedResponse(pl, docs);
    assert r.value[..1] == [e];
    assert r.value == [e, Trailer(ErrorCount([e]))];
  }

  /** With that document the trailer as written reports no errors, yet the
      corrected trailer reports one. */
  lemma ErrorCountExample(analyze: (UserStory, string) -> Outcome)
    ensures CorrectedResponse(Pipeline(Parse, analyze), [Document(1, ExampleText)]) == Success([ErrorObject(RoleMessage), Trailer(1)])
    ensures CorrectedResponse(Pipeline(ParseAsWritten, analyze), [Document(1, ExampleText)]) == Success([ErrorObject(RoleMessage), Trailer(1)])
  {
    ErrorObjectExample(analyze);
    CorrectedSingle(Pipeline(Parse, analyze), Document(1, ExampleText), ErrorObject(RoleMessage));
    CorrectedSingle(Pipeline(ParseAsWritten, analyze), Document(1, ExampleText), ErrorObject(RoleMessage));
  }
}
