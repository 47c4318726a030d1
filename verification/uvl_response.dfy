/** The generator's response: the acceptance criteria under numeric
    indices, the association of user stories with those indices, and named
    metrics, rendered as the JSON object the Feed UVL API expects. */
module GeneratorResponse {
  import opened Strings
  import opened JavaInts
  import opened Criteria

  /** One entry of a user story's list: a criterion index and the strength
      of the association, always 1. */
  datatype Link = Link(index: int, strength: int)

  /** The three JSON objects, keyed by the numbers their keys spell (the
      decimal forms are one-to-one, see `ToJson`). */
  datatype Response = Response(criteria: map<int, seq<string>>, idMap: map<int, seq<Link>>, metrics: map<string, int>)

  /** The constructor: three empty objects. */
  const Empty := Response(map[], map[], map[])

  /** `getAcceptanceCriteriaCountOfUserStory`: the length of the story's
      list, or -1 when the story has none. */
  function CountOf(r: Response, us: int): (n: int)
    ensures n == -1 <==> us !in r.idMap
    ensures n >= 0 ==> n == |r.idMap[us]|
  {
    if us in r.idMap then |r.idMap[us]| else -1
  }

  /** `(usNumber << 16) + count` in 32-bit arithmetic. */
  function Index(us: int, count: int): (i: int)
    ensures IsInt32(i)
  {
    Wrap32(Wrap32(us * 0x1_0000) + count)
  }

  /** The list stored for a story, empty when there is none. */
  function Stored(r: Response, us: int): seq<Link> {
    if us in r.idMap then r.idMap[us] else []
  }

  /** `addAcceptanceCriterion`: the rendering of the criterion is stored
      under the next index of the story, and the story's list gains one
      link to it; nothing else changes. */
  function AddCriterion(r: Response, c: Criterion, us: int): (r': Response)
    ensures var i := Index(us, |Stored(r, us)|);
      r'.criteria.Keys == r.criteria.Keys + {i} && r'.criteria[i] == [ToString(c)]
      && forall k :: k in r.criteria && k != i ==> r'.criteria[k] == r.criteria[k]
    ensures r'.idMap.Keys == r.idMap.Keys + {us}
    ensures r'.idMap[us] == Stored(r, us) + [Link(Index(us, |Stored(r, us)|), 1)]
    ensures forall u :: u in r.idMap && u != us ==> r'.idMap[u] == r.idMap[u]
    ensures r'.metrics == r.metrics
  {
    // a story without a list first gets an empty one, so its count is 0
    var stored := Stored(r, us);
    var index := Index(us, |stored|);
    Response(r.criteria[index := [ToString(c)]], r.idMap[us := stored + [Link(index, 1)]], r.metrics)
  }

  /** `addMetric`: sets or replaces one metric. */
  function AddMetric(r: Response, name: string, value: int): (r': Response)
    ensures r'.metrics.Keys == r.metrics.Keys + {name} && r'.metrics[name] == value
    ensures forall m :: m in r.metrics && m != name ==> r'.metrics[m] == r.metrics[m]
    ensures r'.criteria == r.criteria && r'.idMap == r.idMap
  {
    r.(metrics := r.metrics[name := value])
  }

  /* ---------------------------------------------------------------------
     JSON
     --------------------------------------------------------------------- */

  /** The JSON values the response is built from. */
  datatype Json = JNumber(n: int) | JString(s: string) | JArray(items: seq<Json>) | JObject(fields: map<string, Json>)

  /** An object whose keys are the decimal forms of a map's numbers. */
  function NumberKeyed<V>(m: map<int, V>, f: V -> Json): (j: Json)
    ensures j.JObject? && j.fields.Keys == set k | k in m :: IntToString(k)
    ensures forall k :: k in m ==> IntToString(k) in j.fields && j.fields[IntToString(k)] == f(m[k])
  {
    IntToStringInjective();
    JObject(map k | k in m :: IntToString(k) := f(m[k]))
  }

  /** A list of strings as a JSON array. */
  function StringArray(xs: seq<string>): Json {
    JArray(seq(|xs|, i requires 0 <= i < |xs| => JString(xs[i])))
  }

  /** A story's list as an array of `[index, strength]` arrays. */
  function Links(xs: seq<Link>): Json {
    JArray(seq(|xs|, i requires 0 <= i < |xs| => JArray([JNumber(xs[i].index), JNumber(xs[i].strength)])))
  }

  /** `toJson`: the three objects under "topics", "doc_topic" and
      "metrics". */
  function ToJson(r: Response): (j: Json)
    ensures j.JObject? && j.fields.Keys == {"topics", "doc_topic", "metrics"}
    ensures j.fields["metrics"] == JObject(map m | m in r.metrics :: JNumber(r.metrics[m]))
  {
    JObject(map[
      "topics" := NumberKeyed(r.criteria, StringArray),
      "doc_topic" := NumberKeyed(r.idMap, Links),
      "metrics" := JObject(map m | m in r.metrics :: JNumber(r.metrics[m]))])
  }

  /* ---------------------------------------------------------------------
     Properties
     --------------------------------------------------------------------- */

  /** Story numbers below 2^15 and counts below 2^16 are the range in which
      the index encodes both. */
  predicate InRange(us: int, count: int) {
    0 <= us < 0x8000 && 0 <= count < 0x1_0000
  }

  /** In range the index is exact, and shifting it right by 16 bits gives
      back the story while its low 16 bits give back the count. */
  lemma IndexDecodes(us: int, count: int)
    requires InRange(us, count)
    ensures Index(us, count) == us * 0x1_0000 + count
    ensures Index(us, count) / 0x1_0000 == us && Index(us, count) % 0x1_0000 == count
  {
    assert IsInt32(us * 0x1_0000);
    assert IsInt32(us * 0x1_0000 + count);
  }

  /** In range, different (story, count) pairs get different indices. */
  lemma IndexInjective(us1: int, n1: int, us2: int, n2: int)
    requires InRange(us1, n1) && InRange(us2, n2)
    requires Index(us1, n1) == Index(us2, n2)
    ensures us1 == us2 && n1 == n2
  {
    IndexDecodes(us1, n1);
    IndexDecodes(us2, n2);
  }

  /** Out of range the encoding breaks: story 2^15 gets a negative index,
      and story 2^16 shares its first index with story 0. */
  lemma IndexOverflowExample()
    ensures Index(0x8000, 0) == MinInt
    ensures Index(0x1_0000, 0) == Index(0, 0) == 0
  {
  }

  /** The response as the adds build it: every link of a story points at
      the index of its position, and the criteria are exactly the linked
      indices. */
  predicate Consistent(r: Response) {
    (forall u, j :: u in r.idMap && 0 <= j < |r.idMap[u]| ==>
       r.idMap[u][j] == Link(Index(u, j), 1) && Index(u, j) in r.criteria)
    && (forall k :: k in r.criteria ==> exists u, j :: u in r.idMap && 0 <= j < |r.idMap[u]| && k == Index(u, j))
  }

  /** Every story and every count so far are in range. */
  predicate AllInRange(r: Response) {
    forall u :: u in r.idMap ==> InRange(u, |r.idMap[u]|)
  }

  /** The empty response is consistent. */
  lemma EmptyConsistent()
    ensures Consistent(Empty) && AllInRange(Empty)
  {
  }

  /** An add keeps the response consistent. */
  lemma AddKeepsConsistent(r: Response, c: Criterion, us: int)
    requires Consistent(r)
    ensures Consistent(AddCriterion(r, c, us))
  {
    AddKeepsLinks(r, c, us);
    AddKeepsLinked(r, c, us);
  }

  /** After an add, every link still points at its position's index, which
      holds a criterion. */
  lemma AddKeepsLinks(r: Response, c: Criterion, us: int)
    requires Consistent(r)
    ensures var r' := AddCriterion(r, c, us);
      forall u, j :: u in r'.idMap && 0 <= j < |r'.idMap[u]| ==>
        r'.idMap[u][j] == Link(Index(u, j), 1) && Index(u, j) in r'.criteria
  {
    var r' := AddCriterion(r, c, us);
    var n := |Stored(r, us)|;
    forall u, j | u in r'.idMap && 0 <= j < |r'.idMap[u]|
      ensures r'.idMap[u][j] == Link(Index(u, j), 1) && Index(u, j) in r'.criteria
    {
      if u == us && j == n {
        assert r'.idMap[u][j] == Link(Index(us, n), 1);
      } else if u == us {
        assert r'.idMap[u][j] == r.idMap[u][j];
      }
    }
  }

  /** After an add, every criterion is still the target of a link. */
  lemma AddKeepsLinked(r: Response, c: Criterion, us: int)
    requires Consistent(r)
    ensures var r' := AddCriterion(r, c, us);
      forall k :: k in r'.criteria ==> exists u, j :: u in r'.idMap && 0 <= j < |r'.idMap[u]| && k == Index(u, j)
  {
    var r' := AddCriterion(r, c, us);
    var n := |Stored(r, us)|;
    var i := Index(us, n);
    forall k | k in r'.criteria
      ensures exists u, j :: u in r'.idMap && 0 <= j < |r'.idMap[u]| && k == Index(u, j)
    {
      if k == i {
        assert us in r'.idMap && 0 <= n < |r'.idMap[us]|;
      } else {
        var u, j :| u in r.idMap && 0 <= j < |r.idMap[u]| && k == Index(u, j);
        assert u in r'.idMap && 0 <= j < |r'.idMap[u]|;
      }
    }
  }

  /** In range, an add never overwrites a stored criterion: the new index
      is fresh. */
  lemma AddIsFresh(r: Response, us: int)
    requires Consistent(r) && AllInRange(r) && InRange(us, |Stored(r, us)|)
    ensures Index(us, |Stored(r, us)|) !in r.criteria
  {
    var n := |Stored(r, us)|;
    if Index(us, n) in r.criteria {
      var u, j :| u in r.idMap && 0 <= j < |r.idMap[u]| && Index(us, n) == Index(u, j);
      IndexInjective(us, n, u, j);
      assert false;
    }
  }

  /** An add in range grows the criteria by exactly one and the story's
      count by exactly one. */
  lemma AddCounts(r: Response, c: Criterion, us: int)
    requires Consistent(r) && AllInRange(r) && InRange(us, |Stored(r, us)|)
    ensures |AddCriterion(r, c, us).criteria| == |r.criteria| + 1
    ensures CountOf(AddCriterion(r, c, us), us) == |Stored(r, us)| + 1
  {
    AddIsFresh(r, us);
    var i := Index(us, |Stored(r, us)|);
    assert AddCriterion(r, c, us).criteria.Keys == r.criteria.Keys + {i};
  }

  /** Every stored criterion can be found in the JSON under the decimal
      form of its index, and every key there reads back as a stored
      index. */
  lemma JsonReadBack(r: Response)
    ensures var topics := ToJson(r).fields["topics"];
      topics.JObject?
      && (forall k :: k in r.criteria ==> topics.fields[IntToString(k)] == StringArray(r.criteria[k]))
      && (forall key :: key in topics.fields ==> ParseInt(key) in r.criteria && IntToString(ParseInt(key)) == key)
  {
    var topics := ToJson(r).fields["topics"];
    forall key | key in topics.fields
      ensures ParseInt(key) in r.criteria && IntToString(ParseInt(key)) == key
    {
      var k :| k in r.criteria && key == IntToString(k);
      IntToStringRoundTrip(k);
    }
  }

  /** Two criteria for story 1 get the indices 65536 and 65537, in order. */
  lemma TwoAddsExample(c: Criterion, d: Criterion)
    ensures var r := AddCriterion(AddCriterion(Empty, c, 1), d, 1);
      r.idMap == map[1 := [Link(0x1_0000, 1), Link(0x1_0001, 1)]]
      && r.criteria == map[0x1_0000 := [ToString(c)], 0x1_0001 := [ToString(d)]]
  {
    assert Index(1, 0) == 0x1_0000 && Index(1, 1) == 0x1_0001 by {
      assert Wrap32(0x1_0000) == 0x1_0000;
    }
    assert Stored(Empty, 1) == [];
    var r1 := AddCriterion(Empty, c, 1);
    assert r1.idMap.Keys == {1} && r1.idMap[1] == [Link(0x1_0000, 1)];
    assert r1.criteria.Keys == {0x1_0000} && r1.criteria[0x1_0000] == [ToString(c)];
    assert Stored(r1, 1) == [Link(0x1_0000, 1)];
    var r2 := AddCriterion(r1, d, 1);
    assert r2.idMap.Keys == {1} && r2.idMap[1] == [Link(0x1_0000, 1), Link(0x1_0001, 1)];
    assert r2.criteria.Keys == {0x1_0000, 0x1_0001};
  }
}
