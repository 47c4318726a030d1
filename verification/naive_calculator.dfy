/** The naive completeness calculator: the share of user-story topics that
    reappear, with the same surface string, among the acceptance-criteria
    topics. */
module NaiveCalculator {
  import opened Topics

  /** A Java `double` quotient of two counts: a real number, or NaN for 0/0. */
  datatype Ratio = Defined(value: real) | NotANumber

  /** `CompletenessCalcResult` as the naive calculator fills it. */
  datatype NaiveResult = NaiveResult(
    completeness: Ratio,
    usTopics: seq<Topic>,
    acTopics: seq<Topic>,
    matched: map<Topic, Topic>)

  /** Some target topic equals `t`. */
  predicate Matches(t: Topic, targets: seq<Topic>) {
    exists j :: 0 <= j < |targets| && TopicEquals(t, TopicValue(targets[j]))
  }

  /** The number of source topics that have an equal target topic. */
  function FoundCount(sources: seq<Topic>, targets: seq<Topic>): (n: nat)
    ensures n <= |sources|
  {
    if sources == [] then 0
    else FoundCount(sources[..|sources| - 1], targets) + (if Matches(sources[|sources| - 1], targets) then 1 else 0)
  }

  /** The completeness the calculator reports: found / all as a `double`. */
  function Completeness(sources: seq<Topic>, targets: seq<Topic>): (r: Ratio)
    ensures r.NotANumber? <==> sources == []
    ensures r.Defined? ==> 0.0 <= r.value <= 1.0
  {
    if sources == [] then NotANumber
    else Defined(FoundCount(sources, targets) as real / |sources| as real)
  }

  /** `calculate_completeness`: two nested loops over the topic lists. */
  method CalculateCompleteness(usTopics: seq<Topic>, acTopics: seq<Topic>) returns (r: NaiveResult)
    ensures r.completeness == Completeness(usTopics, acTopics)
    ensures r.usTopics == usTopics && r.acTopics == acTopics
    ensures r.matched == map[]
  {
    var topicsFound := 0;
    var topicsAll := 0;
    var i := 0;
    while i < |usTopics|
      invariant 0 <= i <= |usTopics|
      invariant topicsAll == i
      invariant topicsFound == FoundCount(usTopics[..i], acTopics)
    {
      var topicFound := false;
      var j := 0;
      while j < |acTopics|
        invariant 0 <= j <= |acTopics|
        invariant topicFound <==> exists k :: 0 <= k < j && TopicEquals(usTopics[i], TopicValue(acTopics[k]))
      {
        if TopicEquals(usTopics[i], TopicValue(acTopics[j])) {
          topicFound := true;
        }
        j := j + 1;
      }
      assert usTopics[..i + 1][..i] == usTopics[..i];
      if topicFound {
        topicsFound := topicsFound + 1;
      }
      topicsAll := topicsAll + 1;
      i := i + 1;
    }
    assert usTopics[..i] == usTopics;
    var completeness := if topicsAll == 0 then NotANumber else Defined(topicsFound as real / topicsAll as real);
    r := NaiveResult(completeness, usTopics, acTopics, map[]);
  }

  /* ---------------------------------------------------------------------
     Properties
     --------------------------------------------------------------------- */

  /** One more source topic adds one to the count exactly when some target
      has its surface, and nothing otherwise. */
  lemma FoundCountSnoc(sources: seq<Topic>, t: Topic, targets: seq<Topic>)
    ensures FoundCount(sources + [t], targets)
      == FoundCount(sources, targets) + (if exists j :: 0 <= j < |targets| && targets[j].surface == t.surface then 1 else 0)
  {
    assert (sources + [t])[..|sources|] == sources;
  }

  /** Adding a target topic never lowers the count. */
  lemma {:induction false} FoundCountMonotone(sources: seq<Topic>, targets: seq<Topic>, extra: Topic)
    ensures FoundCount(sources, targets) <= FoundCount(sources, targets + [extra])
    decreases |sources|
  {
    if sources != [] {
      FoundCountMonotone(sources[..|sources| - 1], targets, extra);
      var last := sources[|sources| - 1];
      if Matches(last, targets) {
        var j :| 0 <= j < |targets| && TopicEquals(last, TopicValue(targets[j]));
        assert (targets + [extra])[j] == targets[j];
      }
    }
  }

  /** Adding a target topic never lowers completeness. */
  lemma CompletenessMonotone(sources: seq<Topic>, targets: seq<Topic>, extra: Topic)
    requires sources != []
    ensures Completeness(sources, targets).value <= Completeness(sources, targets + [extra]).value
  {
    FoundCountMonotone(sources, targets, extra);
    var a, b := FoundCount(sources, targets) as real, FoundCount(sources, targets + [extra]) as real;
    var n := |sources| as real;
    QuotientMonotone(a, b, n);
  }

  lemma QuotientMonotone(a: real, b: real, n: real)
    requires a <= b && 0.0 < n
    ensures a / n <= b / n
  {
    var d := (b - a) / n;
    assert d * n == b - a;
    assert d >= 0.0;
    assert b / n == a / n + d;
  }

  /** When every source topic reappears, completeness is 1. */
  lemma {:induction false} AllFound(sources: seq<Topic>, targets: seq<Topic>)
    requires forall i :: 0 <= i < |sources| ==> Matches(sources[i], targets)
    ensures FoundCount(sources, targets) == |sources|
    ensures sources != [] ==> Completeness(sources, targets) == Defined(1.0)
    decreases |sources|
  {
    if sources != [] {
      var init := sources[..|sources| - 1];
      assert forall i :: 0 <= i < |init| ==> init[i] == sources[i];
      AllFound(init, targets);
      assert FoundCount(sources, targets) == |sources|;
      var n := |sources| as real;
      assert n / n == 1.0;
    }
  }

  /** The three cases of the calculator test: {mouse}/{mouse} gives 1,
      {mouse}/{house} gives 0 and {mouse, worker}/{house, worker} gives 0.5. */
  lemma TestScenarios()
    ensures Completeness([Topic("mouse", "NOUN")], [Topic("mouse", "NOUN")]) == Defined(1.0)
    ensures Completeness([Topic("mouse", "NOUN")], [Topic("house", "NOUN")]) == Defined(0.0)
    ensures Completeness([Topic("mouse", "NOUN"), Topic("worker", "NOUN")],
                         [Topic("house", "NOUN"), Topic("worker", "NOUN")]) == Defined(0.5)
  {
    var mouse, house, worker := Topic("mouse", "NOUN"), Topic("house", "NOUN"), Topic("worker", "NOUN");
    assert TopicEquals(mouse, TopicValue([mouse][0]));
    assert !Matches(mouse, [house]) by {
      assert "mouse" != "house" by { assert "mouse"[0] != "house"[0]; }
    }
    var targets := [house, worker];
    assert !Matches(mouse, targets) by {
      assert "mouse" != "house" by { assert "mouse"[0] != "house"[0]; }
      assert "mouse" != "worker" by { assert "mouse"[0] != "worker"[0]; }
    }
    assert Matches(worker, targets) by { assert TopicEquals(worker, TopicValue(targets[1])); }
    assert [mouse, worker][..1] == [mouse];
  }

  /** An empty source list is never guarded: the quotient is 0/0. */
  lemma EmptySourcesAreNaN(targets: seq<Topic>)
    ensures Completeness([], targets) == NotANumber
  {
  }

  /** The quotient with the empty case mapped to 0, as the WordNet
      calculator does for its own quotients. */
  function GuardedCompleteness(sources: seq<Topic>, targets: seq<Topic>): (r: real)
    ensures 0.0 <= r <= 1.0
    ensures sources == [] ==> r == 0.0
    ensures sources != [] ==> Completeness(sources, targets) == Defined(r)
  {
    if sources == [] then 0.0 else FoundCount(sources, targets) as real / |sources| as real
  }
}
