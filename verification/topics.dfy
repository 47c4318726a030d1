/** Topics and relationships extracted from a user story or its acceptance
    criteria, with the equality rules the completeness calculators and the
    extractor rely on. */
module Topics {
  import opened Wrappers
  import opened Strings

  /** The four WordNet parts of speech a tag can resolve to. */
  datatype Pos = Adjective | Noun | Verb | Adverb

  /** A topic: its surface string and the part-of-speech tag of its first
      token (empty when created by the one-argument constructor). */
  datatype Topic = Topic(surface: string, tag: string)

  /** A relationship between two topics; the relation string is carried for display. */
  datatype Relationship = Relationship(left: Topic, right: Topic, relation: string)

  /** The argument of Java's `equals(Object)`: a topic, a relationship, or any
      other object (including one of a class not modelled here). */
  datatype Value = TopicValue(topic: Topic) | RelationshipValue(relationship: Relationship) | OtherValue

  /** `new Topic(topic)`: the tag is the empty string. */
  function NewTopic(surface: string): (t: Topic)
    ensures t.surface == surface && t.tag == ""
  {
    Topic(surface, "")
  }

  /** `Topic.toString()`: the surface string. */
  function TopicToString(t: Topic): (r: string)
    ensures TopicEquals(t, TopicValue(NewTopic(r)))
  {
    t.surface
  }

  /** `Topic.equals(Object)` */
  predicate TopicEquals(t: Topic, other: Value)
    ensures TopicEquals(t, other) <==> exists tag :: other == TopicValue(Topic(t.surface, tag))
  {
    other.TopicValue? && other.topic.surface == t.surface
  }

  /** The WordNet key of a part of speech (`POS.getKey()`). */
  function PosKey(p: Pos): char {
    match p
    case Adjective => 'a'
    case Noun => 'n'
    case Verb => 'v'
    case Adverb => 'r'
  }

  /** `Topic.getPOSTag()`: the lower-cased first tag character names the part
      of speech, anything else gives `null`; an empty tag makes
      `substring(0, 1)` throw. */
  function GetPosTag(t: Topic): (r: Result<Option<Pos>>)
    ensures r.Failure? <==> t.tag == []
    ensures r.Success? && r.value.Some? ==> Lower(t.tag[0]) == PosKey(r.value.value)
    ensures r.Success? && r.value.None? ==> Lower(t.tag[0]) !in ['a', 'n', 'v', 'r']
  {
    if t.tag == [] then Failure(IndexOutOfBounds)
    else
      var key := Lower(t.tag[0]);
      if key == 'a' then Success(Some(Adjective))
      else if key == 'n' then Success(Some(Noun))
      else if key == 'v' then Success(Some(Verb))
      else if key == 'r' then Success(Some(Adverb))
      else Success(None)
  }

  /** `Relationship.equals(Object)`: both surfaces, in order; the relation is
      ignored. */
  predicate RelationshipEquals(r: Relationship, other: Value)
    ensures RelationshipEquals(r, other) <==>
      exists lt, rt, rel :: other == RelationshipValue(Relationship(Topic(r.left.surface, lt), Topic(r.right.surface, rt), rel))
  {
    other.RelationshipValue?
    && other.relationship.left.surface == r.left.surface
    && other.relationship.right.surface == r.right.surface
  }

  /* ---------------------------------------------------------------------
     Properties
     --------------------------------------------------------------------- */

  /** Topic equality is the equality of the rendered strings: the tag plays
      no part, and nothing but a topic is ever equal to a topic. */
  lemma TopicEqualsIsSurfaceEquality(a: Topic, other: Value)
    ensures TopicEquals(a, other) <==> other.TopicValue? && TopicToString(a) == TopicToString(other.topic)
    ensures forall tag :: TopicEquals(Topic(a.surface, tag), other) == TopicEquals(a, other)
    ensures !other.TopicValue? ==> !TopicEquals(a, other)
  {
  }

  /** Topic equality is an equivalence on topics. */
  lemma TopicEqualsEquivalence(a: Topic, b: Topic, c: Topic)
    ensures TopicEquals(a, TopicValue(a))
    ensures TopicEquals(a, TopicValue(b)) <==> TopicEquals(b, TopicValue(a))
    ensures TopicEquals(a, TopicValue(b)) && TopicEquals(b, TopicValue(c)) ==> TopicEquals(a, TopicValue(c))
  {
  }

  /** Every part of speech is recovered from a tag that starts with its key,
      in either case. */
  lemma {:induction false} PosTagRoundTrip(p: Pos, surface: string, rest: string)
    ensures GetPosTag(Topic(surface, [PosKey(p)] + rest)) == Success(Some(p))
    ensures GetPosTag(Topic(surface, [Upper(PosKey(p))] + rest)) == Success(Some(p))
  {
    var lower := [PosKey(p)] + rest;
    var upper := [Upper(PosKey(p))] + rest;
    assert lower[0] == PosKey(p) && upper[0] == Upper(PosKey(p));
    match p
    case Adjective => assert Lower(Upper('a')) == 'a';
    case Noun => assert Lower(Upper('n')) == 'n';
    case Verb => assert Lower(Upper('v')) == 'v';
    case Adverb => assert Lower(Upper('r')) == 'r';
  }

  /** The Universal and Penn tags seen in practice: NOUN, NN, VB and RB
      resolve, JJ (adjective!) and IN do not, and the one-argument
      constructor's empty tag throws. */
  lemma PosTagExamples(s: string)
    ensures GetPosTag(Topic(s, "NOUN")) == Success(Some(Noun))
    ensures GetPosTag(Topic(s, "NN")) == Success(Some(Noun))
    ensures GetPosTag(Topic(s, "VB")) == Success(Some(Verb))
    ensures GetPosTag(Topic(s, "RB")) == Success(Some(Adverb))
    ensures GetPosTag(Topic(s, "JJ")) == Success(None)
    ensures GetPosTag(Topic(s, "IN")) == Success(None)
    ensures GetPosTag(NewTopic(s)).Failure?
  {
    assert "NOUN"[0] == 'N' && "NN"[0] == 'N' && "VB"[0] == 'V' && "RB"[0] == 'R';
    assert "JJ"[0] == 'J' && "IN"[0] == 'I';
  }

  /** Relationship equality compares the two surfaces in order and nothing
      else: the relation and the tags are ignored, non-relationships are never
      equal, and swapping the sides breaks equality unless both surfaces
      coincide. */
  lemma RelationshipEqualsProperties(r: Relationship, other: Value)
    ensures RelationshipEquals(r, other) <==>
      other.RelationshipValue?
      && TopicEquals(r.left, TopicValue(other.relationship.left))
      && TopicEquals(r.right, TopicValue(other.relationship.right))
    ensures forall rel :: RelationshipEquals(Relationship(r.left, r.right, rel), other) == RelationshipEquals(r, other)
    ensures !other.RelationshipValue? ==> !RelationshipEquals(r, other)
    ensures RelationshipEquals(r, RelationshipValue(Relationship(r.right, r.left, r.relation)))
      <==> r.left.surface == r.right.surface
  {
  }
}
