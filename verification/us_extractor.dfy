/** The user-story extractor around the OpenIE triples: the loop that turns
    confident triples into de-duplicated topics and relationships, and the
    two topic post-filters. The NLP pipeline that produces the triples and
    the string-similarity measure are not modelled: the triples are an input
    sequence and the similarity is a function parameter. */
module UsExtractor {
  import opened Strings
  import opened Topics

  /** An OpenIE triple with its subject and object already made topics. */
  datatype Triple = Triple(subject: Topic, obj: Topic, relation: string, confidence: real)

  /** The extraction parameters that the loop and the filters read. */
  datatype ExtractionParams = ExtractionParams(
    filterSimilarity: bool,
    similarityThreshold: real,
    filterExcludeList: bool,
    filterCompositions: bool,
    compositionsMinLength: int)

  /** The topics and relationships collected so far. */
  datatype Extraction = Extraction(topics: seq<Topic>, relationships: seq<Relationship>)

  /** The tokens the exclude-list filter removes. */
  const ExcludeTokens: seq<string> := ["I"]

  /* ---------------------------------------------------------------------
     The triple loop
     --------------------------------------------------------------------- */

  /** `topics.contains(t)`: some kept topic is equal to `t`. */
  predicate ContainsTopic(topics: seq<Topic>, t: Topic) {
    exists i :: 0 <= i < |topics| && TopicEquals(t, TopicValue(topics[i]))
  }

  /** `relationships.contains(r)`: some kept relationship is equal to `r`. */
  predicate ContainsRelationship(rels: seq<Relationship>, r: Relationship) {
    exists i :: 0 <= i < |rels| && RelationshipEquals(r, RelationshipValue(rels[i]))
  }

  /** `check_sim_threshold`: the candidate is kept unless some kept topic is
      more similar to it than the threshold. */
  function CheckSimThreshold(sim: (string, string) -> real, topics: seq<Topic>, t: Topic, threshold: real): (ok: bool)
    ensures ok <==> forall i :: 0 <= i < |topics| ==> sim(TopicToString(topics[i]), TopicToString(t)) <= threshold
  {
    if topics == [] then true
    else if sim(TopicToString(topics[0]), TopicToString(t)) > threshold then false
    else
      assert forall i :: 1 <= i < |topics| ==> topics[1..][i - 1] == topics[i];
      CheckSimThreshold(sim, topics[1..], t, threshold)
  }

  /** One candidate topic: appended unless an equal topic is present or, with
      the similarity filter on, a kept topic is too similar. */
  function AddTopic(sim: (string, string) -> real, p: ExtractionParams, topics: seq<Topic>, t: Topic): (r: seq<Topic>)
    ensures r == topics || r == topics + [t]
  {
    if ContainsTopic(topics, t) then topics
    else if p.filterSimilarity then
      if CheckSimThreshold(sim, topics, t, p.similarityThreshold) then topics + [t] else topics
    else topics + [t]
  }

  /** One relationship: appended unless an equal one is present. */
  function AddRelationship(rels: seq<Relationship>, r: Relationship): (res: seq<Relationship>)
    ensures res == rels || res == rels + [r]
  {
    if ContainsRelationship(rels, r) then rels else rels + [r]
  }

  /** `triple.confidence > 0.5` */
  predicate Confident(tr: Triple) {
    tr.confidence > 0.5
  }

  /** The body of the triple loop. */
  function Step(sim: (string, string) -> real, p: ExtractionParams, e: Extraction, tr: Triple): Extraction {
    if !Confident(tr) then e
    else
      var withSubject := AddTopic(sim, p, e.topics, tr.subject);
      var withObject := AddTopic(sim, p, withSubject, tr.obj);
      Extraction(withObject, AddRelationship(e.relationships, Relationship(tr.subject, tr.obj, tr.relation)))
  }

  /** The state after the loop has seen `triples`, in order. */
  function Collect(sim: (string, string) -> real, p: ExtractionParams, triples: seq<Triple>): Extraction {
    if triples == [] then Extraction([], [])
    else Step(sim, p, Collect(sim, p, triples[..|triples| - 1]), triples[|triples| - 1])
  }

  /** The loop over the triples of all sentences, in order. */
  method CollectTriples(sim: (string, string) -> real, p: ExtractionParams, triples: seq<Triple>) returns (e: Extraction)
    ensures e == Collect(sim, p, triples)
  {
    e := Extraction([], []);
    var i := 0;
    while i < |triples|
      invariant 0 <= i <= |triples|
      invariant e == Collect(sim, p, triples[..i])
    {
      assert triples[..i + 1][..i] == triples[..i];
      e := Step(sim, p, e, triples[i]);
      i := i + 1;
    }
    assert triples[..i] == triples;
  }

  /* ---------------------------------------------------------------------
     The post-filters
     --------------------------------------------------------------------- */

  /** `filter_topics`: drop the topics whose string is on the exclude list. */
  function FilterTopics(topics: seq<Topic>): (r: seq<Topic>)
    ensures |r| <= |topics|
  {
    if topics == [] then []
    else (if TopicToString(topics[0]) in ExcludeTokens then [] else [topics[0]]) + FilterTopics(topics[1..])
  }

  /** The number of topics whose string equals `token`. */
  function TokenMatches(topics: seq<Topic>, token: string): (n: nat)
    ensures n <= |topics|
  {
    if topics == [] then 0
    else TokenMatches(topics[..|topics| - 1], token) + (if TopicToString(topics[|topics| - 1]) == token then 1 else 0)
  }

  /** The inner count of `filterCompositeTopics`: (token, topic) pairs whose
      strings are equal. */
  function AlreadyFound(tokens: seq<string>, topics: seq<Topic>): nat {
    if tokens == [] then 0
    else AlreadyFound(tokens[..|tokens| - 1], topics) + TokenMatches(topics, tokens[|tokens| - 1])
  }

  /** How many times `filterCompositeTopics` appends `t`: once when it has
      fewer tokens than the minimum, and once more when the count of its
      tokens among the topics differs from its token count. */
  function Copies(t: Topic, topics: seq<Topic>, minLength: int): (n: nat)
    ensures n <= 2
    ensures |SplitSpace(TopicToString(t))| < minLength ==> n >= 1
  {
    var tokens := SplitSpace(TopicToString(t));
    (if |tokens| < minLength then 1 else 0) + (if AlreadyFound(tokens, topics) != |tokens| then 1 else 0)
  }

  /** `n` copies of `t`. */
  function Repeat(t: Topic, n: nat): (r: seq<Topic>)
    ensures |r| == n && forall i :: 0 <= i < n ==> r[i] == t
  {
    if n == 0 then [] else [t] + Repeat(t, n - 1)
  }

  /** The result of `filterCompositeTopics` over the topics `rest`, each
      judged against the whole list `all`. */
  function CompositeFilter(rest: seq<Topic>, all: seq<Topic>, minLength: int): seq<Topic> {
    if rest == [] then []
    else CompositeFilter(rest[..|rest| - 1], all, minLength) + Repeat(rest[|rest| - 1], Copies(rest[|rest| - 1], all, minLength))
  }

  /** The innermost loop: the topics whose string equals `token`. */
  method CountTokenMatches(topics: seq<Topic>, token: string) returns (n: nat)
    ensures n == TokenMatches(topics, token)
  {
    n := 0;
    var j := 0;
    while j < |topics|
      invariant 0 <= j <= |topics|
      invariant n == TokenMatches(topics[..j], token)
    {
      assert topics[..j + 1][..j] == topics[..j];
      if TopicToString(topics[j]) == token {
        n := n + 1;
      }
      j := j + 1;
    }
    assert topics[..j] == topics;
  }

  /** The two inner loops: `topicsAlreadyFound` for one topic's tokens. */
  method CountAlreadyFound(tokens: seq<string>, topics: seq<Topic>) returns (found: nat)
    ensures found == AlreadyFound(tokens, topics)
  {
    found := 0;
    var k := 0;
    while k < |tokens|
      invariant 0 <= k <= |tokens|
      invariant found == AlreadyFound(tokens[..k], topics)
    {
      var n := CountTokenMatches(topics, tokens[k]);
      assert tokens[..k + 1][..k] == tokens[..k];
      found := found + n;
      k := k + 1;
    }
    assert tokens[..k] == tokens;
  }

  /** `filterCompositeTopics`: each topic is appended when it is short, and
      again when its tokens are not exactly accounted for by the topics. */
  method FilterCompositeTopics(topics: seq<Topic>, minLength: int) returns (result: seq<Topic>)
    ensures result == CompositeFilter(topics, topics, minLength)
  {
    result := [];
    var i := 0;
    while i < |topics|
      invariant 0 <= i <= |topics|
      invariant result == CompositeFilter(topics[..i], topics, minLength)
    {
      var copies := TopicCopies(topics[i], topics, minLength);
      result := result + copies;
      CompositeFilterStep(topics, i, minLength);
      i := i + 1;
    }
    assert topics[..i] == topics;
  }

  /** The body of the outer loop for one topic: appended when it is short,
      and again when its tokens are not exactly accounted for. */
  method TopicCopies(topic: Topic, topics: seq<Topic>, minLength: int) returns (copies: seq<Topic>)
    ensures copies == Repeat(topic, Copies(topic, topics, minLength))
  {
    copies := [];
    var tokens := SplitSpace(TopicToString(topic));
    if |tokens| < minLength {
      copies := copies + [topic];
    }
    var found := CountAlreadyFound(tokens, topics);
    if found != |tokens| {
      copies := copies + [topic];
    }
    AppendedCopies([], topic, topics, minLength, tokens, found, copies);
  }

  /** The one or two appends of a loop pass add the topic's copies. */
  lemma AppendedCopies(before: seq<Topic>, topic: Topic, topics: seq<Topic>, minLength: int,
                       tokens: seq<string>, found: nat, after: seq<Topic>)
    requires tokens == SplitSpace(TopicToString(topic)) && found == AlreadyFound(tokens, topics)
    requires after == before + (if |tokens| < minLength then [topic] else []) + (if found != |tokens| then [topic] else [])
    ensures after == before + Repeat(topic, Copies(topic, topics, minLength))
  {
    var n := Copies(topic, topics, minLength);
    assert Repeat(topic, n) == (if |tokens| < minLength then [topic] else []) + (if found != |tokens| then [topic] else []);
  }

  /** The reference grows by the copies of the next topic. */
  lemma CompositeFilterStep(topics: seq<Topic>, i: int, minLength: int)
    requires 0 <= i < |topics|
    ensures CompositeFilter(topics[..i + 1], topics, minLength)
      == CompositeFilter(topics[..i], topics, minLength) + Repeat(topics[i], Copies(topics[i], topics, minLength))
  {
    assert topics[..i + 1][..i] == topics[..i];
  }

  /** The two filters after the loop, exclude list first. */
  method PostFilter(p: ExtractionParams, topics: seq<Topic>) returns (result: seq<Topic>)
    ensures result == PostFiltered(p, topics)
  {
    result := topics;
    if p.filterExcludeList {
      result := FilterTopics(result);
    }
    if p.filterCompositions {
      result := FilterCompositeTopics(result, p.compositionsMinLength);
    }
  }

  /** The reference for `PostFilter`. */
  function PostFiltered(p: ExtractionParams, topics: seq<Topic>): seq<Topic> {
    var excluded := if p.filterExcludeList then FilterTopics(topics) else topics;
    if p.filterCompositions then CompositeFilter(excluded, excluded, p.compositionsMinLength) else excluded
  }

  /* ---------------------------------------------------------------------
     Properties
     --------------------------------------------------------------------- */

  /** No two topics share a surface string. */
  predicate DistinctSurfaces(topics: seq<Topic>) {
    forall i, j :: 0 <= i < j < |topics| ==> TopicToString(topics[i]) != TopicToString(topics[j])
  }

  /** No two relationships are equal. */
  predicate DistinctRelationships(rels: seq<Relationship>) {
    forall i, j :: 0 <= i < j < |rels| ==> !RelationshipEquals(rels[j], RelationshipValue(rels[i]))
  }

  /** Every kept topic is at most `threshold` similar to every later one. */
  predicate Dissimilar(sim: (string, string) -> real, threshold: real, topics: seq<Topic>) {
    forall i, j :: 0 <= i < j < |topics| ==> sim(TopicToString(topics[i]), TopicToString(topics[j])) <= threshold
  }

  /** Adding a topic keeps the surfaces distinct and, with the similarity
      filter on, the topics pairwise dissimilar. */
  lemma AddTopicInvariant(sim: (string, string) -> real, p: ExtractionParams, topics: seq<Topic>, t: Topic)
    requires DistinctSurfaces(topics)
    ensures DistinctSurfaces(AddTopic(sim, p, topics, t))
    ensures ContainsTopic(AddTopic(sim, p, topics, t), t) || (p.filterSimilarity && !ContainsTopic(topics, t))
    ensures p.filterSimilarity && Dissimilar(sim, p.similarityThreshold, topics) ==>
      Dissimilar(sim, p.similarityThreshold, AddTopic(sim, p, topics, t))
    ensures forall i :: 0 <= i < |topics| ==> ContainsTopic(AddTopic(sim, p, topics, t), topics[i])
  {
    var r := AddTopic(sim, p, topics, t);
    if r == topics + [t] {
      assert r[|topics|] == t;
      forall i | 0 <= i < |topics| ensures ContainsTopic(r, topics[i]) {
        assert r[i] == topics[i];
      }
    } else {
      forall i | 0 <= i < |topics| ensures ContainsTopic(r, topics[i]) {
        assert TopicEquals(topics[i], TopicValue(r[i]));
      }
    }
  }

  /** Adding a relationship keeps them distinct, contains it afterwards and
      keeps every earlier one. */
  lemma AddRelationshipInvariant(rels: seq<Relationship>, r: Relationship)
    requires DistinctRelationships(rels)
    ensures DistinctRelationships(AddRelationship(rels, r))
    ensures ContainsRelationship(AddRelationship(rels, r), r)
    ensures forall i :: 0 <= i < |rels| ==> ContainsRelationship(AddRelationship(rels, r), rels[i])
  {
    var res := AddRelationship(rels, r);
    if res == rels + [r] {
      assert RelationshipEquals(r, RelationshipValue(res[|rels|]));
    }
    forall i | 0 <= i < |rels| ensures ContainsRelationship(res, rels[i]) {
      assert res[i] == rels[i];
      assert RelationshipEquals(rels[i], RelationshipValue(res[i]));
    }
  }

  /** After the loop the topic surfaces and the relationships are distinct,
      and with the similarity filter on the topics are pairwise dissimilar. */
  lemma {:induction false} CollectDistinct(sim: (string, string) -> real, p: ExtractionParams, triples: seq<Triple>)
    ensures DistinctSurfaces(Collect(sim, p, triples).topics)
    ensures DistinctRelationships(Collect(sim, p, triples).relationships)
    ensures p.filterSimilarity ==> Dissimilar(sim, p.similarityThreshold, Collect(sim, p, triples).topics)
  {
    if triples != [] {
      var e := Collect(sim, p, triples[..|triples| - 1]);
      var tr := triples[|triples| - 1];
      CollectDistinct(sim, p, triples[..|triples| - 1]);
      if Confident(tr) {
        AddTopicInvariant(sim, p, e.topics, tr.subject);
        AddTopicInvariant(sim, p, AddTopic(sim, p, e.topics, tr.subject), tr.obj);
        AddRelationshipInvariant(e.relationships, Relationship(tr.subject, tr.obj, tr.relation));
      }
    }
  }

  /** One loop step only appends: earlier topics and relationships stay. */
  lemma StepGrows(sim: (string, string) -> real, p: ExtractionParams, e: Extraction, tr: Triple)
    ensures e.topics <= Step(sim, p, e, tr).topics
    ensures e.relationships <= Step(sim, p, e, tr).relationships
  {
  }

  /** A topic contained in a prefix is contained in the whole list. */
  lemma ContainsTopicPrefix(a: seq<Topic>, b: seq<Topic>, t: Topic)
    requires a <= b && ContainsTopic(a, t)
    ensures ContainsTopic(b, t)
  {
    var i :| 0 <= i < |a| && TopicEquals(t, TopicValue(a[i]));
    assert b[i] == a[i];
  }

  /** A relationship contained in a prefix is contained in the whole list. */
  lemma ContainsRelationshipPrefix(a: seq<Relationship>, b: seq<Relationship>, r: Relationship)
    requires a <= b && ContainsRelationship(a, r)
    ensures ContainsRelationship(b, r)
  {
    var i :| 0 <= i < |a| && RelationshipEquals(r, RelationshipValue(a[i]));
    assert b[i] == a[i];
  }

  /** A confident step contains its relationship and, without the
      similarity filter, its subject and object. */
  lemma StepCovers(sim: (string, string) -> real, p: ExtractionParams, e: Extraction, tr: Triple)
    requires Confident(tr)
    ensures ContainsRelationship(Step(sim, p, e, tr).relationships, Relationship(tr.subject, tr.obj, tr.relation))
    ensures !p.filterSimilarity ==> ContainsTopic(Step(sim, p, e, tr).topics, tr.subject) && ContainsTopic(Step(sim, p, e, tr).topics, tr.obj)
  {
    var r := Relationship(tr.subject, tr.obj, tr.relation);
    var rels := Step(sim, p, e, tr).relationships;
    if ContainsRelationship(e.relationships, r) {
      ContainsRelationshipPrefix(e.relationships, rels, r);
    } else {
      assert RelationshipEquals(r, RelationshipValue(rels[|e.relationships|]));
    }
    if !p.filterSimilarity {
      var withSubject := AddTopic(sim, p, e.topics, tr.subject);
      var withObject := AddTopic(sim, p, withSubject, tr.obj);
      if !ContainsTopic(e.topics, tr.subject) {
        assert TopicEquals(tr.subject, TopicValue(withSubject[|e.topics|]));
      }
      ContainsTopicPrefix(withSubject, withObject, tr.subject);
      if !ContainsTopic(withSubject, tr.obj) {
        assert TopicEquals(tr.obj, TopicValue(withObject[|withSubject|]));
      }
    }
  }

  /** Without the similarity filter, the subject and object of every
      confident triple are among the topics; with or without it, its
      relationship is among the relationships. */
  lemma {:induction false} CollectCovers(sim: (string, string) -> real, p: ExtractionParams, triples: seq<Triple>, k: int)
    requires 0 <= k < |triples| && Confident(triples[k])
    ensures ContainsRelationship(Collect(sim, p, triples).relationships, Relationship(triples[k].subject, triples[k].obj, triples[k].relation))
    ensures !p.filterSimilarity ==>
      ContainsTopic(Collect(sim, p, triples).topics, triples[k].subject)
      && ContainsTopic(Collect(sim, p, triples).topics, triples[k].obj)
  {
    var init := triples[..|triples| - 1];
    var e := Collect(sim, p, init);
    var tr := triples[|triples| - 1];
    var after := Collect(sim, p, triples);
    if k == |triples| - 1 {
      StepCovers(sim, p, e, tr);
    } else {
      assert init[k] == triples[k];
      CollectCovers(sim, p, init, k);
      StepGrows(sim, p, e, tr);
      ContainsRelationshipPrefix(e.relationships, after.relationships, Relationship(triples[k].subject, triples[k].obj, triples[k].relation));
      if !p.filterSimilarity {
        ContainsTopicPrefix(e.topics, after.topics, triples[k].subject);
        ContainsTopicPrefix(e.topics, after.topics, triples[k].obj);
      }
    }
  }

  /** Every topic kept comes from a confident triple. */
  lemma {:induction false} CollectSources(sim: (string, string) -> real, p: ExtractionParams, triples: seq<Triple>)
    ensures forall t :: t in Collect(sim, p, triples).topics ==>
      exists k :: 0 <= k < |triples| && Confident(triples[k]) && (t == triples[k].subject || t == triples[k].obj)
  {
    if triples != [] {
      var init := triples[..|triples| - 1];
      CollectSources(sim, p, init);
      assert forall k :: 0 <= k < |init| ==> init[k] == triples[k];
    }
  }

  /** `filter_topics` keeps exactly the topics other than "I", in order. */
  lemma {:induction false} FilterTopicsKeeps(topics: seq<Topic>)
    ensures forall t :: t in FilterTopics(topics) <==> t in topics && TopicToString(t) != "I"
  {
    if topics != [] {
      FilterTopicsKeeps(topics[1..]);
      assert forall t :: t in topics <==> t == topics[0] || t in topics[1..];
    }
  }

  /** `filter_topics` distributes over concatenation, so it keeps the order. */
  lemma {:induction false} FilterTopicsAppend(a: seq<Topic>, b: seq<Topic>)
    ensures FilterTopics(a + b) == FilterTopics(a) + FilterTopics(b)
  {
    if a != [] {
      assert (a + b)[1..] == a[1..] + b;
      FilterTopicsAppend(a[1..], b);
    } else {
      assert a + b == b;
    }
  }

  /** The composition filter only repeats topics it was given. */
  lemma {:induction false} CompositeFilterFrom(rest: seq<Topic>, all: seq<Topic>, minLength: int)
    ensures forall t :: t in CompositeFilter(rest, all, minLength) ==> t in rest
  {
    if rest != [] {
      var init := rest[..|rest| - 1];
      var last := rest[|rest| - 1];
      var tail := Repeat(last, Copies(last, all, minLength));
      CompositeFilterFrom(init, all, minLength);
      assert CompositeFilter(rest, all, minLength) == CompositeFilter(init, all, minLength) + tail;
      forall t | t in CompositeFilter(rest, all, minLength) ensures t in rest {
        if t in CompositeFilter(init, all, minLength) {
          var i :| 0 <= i < |init| && init[i] == t;
          assert rest[i] == t;
        } else {
          var i :| 0 <= i < |tail| && tail[i] == t;
          assert t == rest[|rest| - 1];
        }
      }
    }
  }

  /** The composition filter keeps every topic with at least one copy. */
  lemma {:induction false} CompositeFilterKeeps(rest: seq<Topic>, all: seq<Topic>, minLength: int)
    ensures forall i :: 0 <= i < |rest| && Copies(rest[i], all, minLength) > 0 ==> rest[i] in CompositeFilter(rest, all, minLength)
  {
    if rest != [] {
      var init := rest[..|rest| - 1];
      var last := rest[|rest| - 1];
      var tail := Repeat(last, Copies(last, all, minLength));
      CompositeFilterKeeps(init, all, minLength);
      assert CompositeFilter(rest, all, minLength) == CompositeFilter(init, all, minLength) + tail;
      forall i | 0 <= i < |rest| && Copies(rest[i], all, minLength) > 0 ensures rest[i] in CompositeFilter(rest, all, minLength) {
        if i < |init| {
          assert init[i] == rest[i];
          assert rest[i] in CompositeFilter(init, all, minLength);
        } else {
          assert tail[0] == rest[i];
        }
      }
    }
  }

  /** With the exclude list applied first, no "I" survives the composition
      filter. */
  lemma PostFilteredExcludesI(p: ExtractionParams, topics: seq<Topic>)
    requires p.filterExcludeList
    ensures forall t :: t in PostFiltered(p, topics) ==> TopicToString(t) != "I"
  {
    FilterTopicsKeeps(topics);
    var excluded := FilterTopics(topics);
    CompositeFilterFrom(excluded, excluded, p.compositionsMinLength);
  }

  /** The tokens of "a b". */
  lemma SplitAB()
    ensures SplitSpace("a b") == ["a", "b"]
  {
    assert ' ' !in "a" && ' ' !in "b";
    SplitTwoWords("a", "b");
    assert "a" + " " + "b" == "a b";
  }

  /** A two-token topic that no topic accounts for is appended twice under
      minimum length 3. */
  lemma CompositeTwiceExample()
    ensures Copies(Topic("a b", "NN"), [Topic("a b", "NN")], 3) == 2
  {
    SplitAB();
    var one := [Topic("a b", "NN")];
    assert "a b" != "a" by { assert |"a b"| != |"a"|; }
    assert "a b" != "b" by { assert |"a b"| != |"b"|; }
    assert one[..0] == [];
    assert TokenMatches(one, "a") == 0 && TokenMatches(one, "b") == 0;
    assert ["a", "b"][..1] == ["a"];
    assert ["a"][..0] == [];
  }

  /** A long topic whose tokens are both topics is dropped. */
  lemma CompositeDropExample()
    ensures Copies(Topic("a b", "NN"), [Topic("a b", "NN"), Topic("a", "NN"), Topic("b", "NN")], 2) == 0
  {
    SplitAB();
    assert "a b" != "a" by { assert |"a b"| != |"a"|; }
    assert "a b" != "b" by { assert |"a b"| != |"b"|; }
    assert "a" != "b" by { assert "a"[0] != "b"[0]; }
    var one := [Topic("a b", "NN")];
    var two := [Topic("a b", "NN"), Topic("a", "NN")];
    var three := [Topic("a b", "NN"), Topic("a", "NN"), Topic("b", "NN")];
    assert three[..2] == two && two[..1] == one && one[..0] == [];
    assert TokenMatches(three, "a") == 1;
    assert TokenMatches(three, "b") == 1;
    assert ["a", "b"][..1] == ["a"];
    assert ["a"][..0] == [];
  }
}
