/** The WordNet completeness calculator. Every word of every topic goes either
    to a pool of WordNet senses or to a pool of literal words; source and
    target pools are then compared pairwise, literally and by hypernym
    distance, and the two shares are mixed with the weight alpha.

    The dictionary and the relationship finder are not modelled: they are
    the three functions of a `WordNet` value. */
module WordnetCalculator {
  import opened Wrappers
  import opened Strings
  import opened Topics

  /** What the calculator asks of WordNet, for senses of type `S`. */
  datatype WordNet<!S> = WordNet(
    lookup: (Pos, string) -> Option<S>,    // first sense of the index word, None for null
    shallowest: (S, S) -> Option<int>,     // depth of the shallowest hypernym relationship, None for none
    name: S -> string)                     // the sense's toString()

  /** The calculation parameters: the weight of the semantic share and the
      hypernym distance threshold. */
  datatype Params = Params(alpha: real, threshold: int)

  /** The resolved senses and the literal words of a list of topics, in
      topic-then-word order. */
  datatype Pools<S> = Pools(senses: seq<S>, literal: seq<string>)

  /** The completeness and the map from source sense to matched target sense. */
  datatype WordnetResult = WordnetResult(completeness: real, matched: map<string, string>)

  /* ---------------------------------------------------------------------
     Pools
     --------------------------------------------------------------------- */

  /** Sort the words of one topic: a word resolves to a sense when the
      topic's part of speech is known and the dictionary has the word. */
  function SortWords<S>(wn: WordNet<S>, tag: Option<Pos>, words: seq<string>): (p: Pools<S>)
    ensures |p.senses| + |p.literal| == |words|
    ensures tag.None? ==> p.senses == [] && p.literal == words
  {
    if words == [] then Pools([], [])
    else
      var rest := SortWords(wn, tag, words[1..]);
      if Resolves(wn, tag, words[0]) then
        Pools([wn.lookup(tag.value, words[0]).value] + rest.senses, rest.literal)
      else
        Pools(rest.senses, [words[0]] + rest.literal)
  }

  /** The dictionary has `w` under the topic's part of speech. */
  predicate Resolves<S>(wn: WordNet<S>, tag: Option<Pos>, w: string) {
    tag.Some? && wn.lookup(tag.value, w).Some?
  }

  /** The words of a topic, split at single spaces. */
  function Words(t: Topic): seq<string> {
    SplitSpace(TopicToString(t))
  }

  /** The number of words of a list of topics. */
  function WordCount(topics: seq<Topic>): nat {
    if topics == [] then 0 else |Words(topics[0])| + WordCount(topics[1..])
  }

  /** Some topic of the list has an empty tag. */
  predicate SomeUntagged(topics: seq<Topic>) {
    exists i :: 0 <= i < |topics| && topics[i].tag == []
  }

  /** The pools of a list of topics; `getPOSTag` throws on an empty tag. */
  function BuildPools<S>(wn: WordNet<S>, topics: seq<Topic>): (r: Result<Pools<S>>)
    ensures r.Failure? <==> SomeUntagged(topics)
    ensures r.Success? ==> |r.value.senses| + |r.value.literal| == WordCount(topics)
  {
    if topics == [] then Success(Pools([], []))
    else
      assert forall i :: 1 <= i < |topics| ==> topics[1..][i - 1] == topics[i];
      var tag :- GetPosTag(topics[0]);
      var first := SortWords(wn, tag, Words(topics[0]));
      var rest :- BuildPools(wn, topics[1..]);
      Success(Pools(first.senses + rest.senses, first.literal + rest.literal))
  }

  /* ---------------------------------------------------------------------
     Counting
     --------------------------------------------------------------------- */

  /** Case-sensitive `String.equals`. */
  predicate SameWord(a: string, b: string) {
    a == b
  }

  /** The hypernym test: a relationship exists and its shallowest depth is
      below the threshold. */
  predicate Close<S>(wn: WordNet<S>, threshold: int, a: S, b: S) {
    wn.shallowest(a, b).Some? && wn.shallowest(a, b).value < threshold
  }

  /** `Close` as a relation value. */
  function CloseRel<S>(wn: WordNet<S>, threshold: int): (S, S) -> bool {
    (a: S, b: S) => Close(wn, threshold, a, b)
  }

  /** The number of targets related to `s`. */
  function RowCount<T>(rel: (T, T) -> bool, s: T, targets: seq<T>): (n: nat)
    ensures n <= |targets|
    ensures n == 0 <==> forall j :: 0 <= j < |targets| ==> !rel(s, targets[j])
  {
    if targets == [] then 0
    else
      var init := targets[..|targets| - 1];
      assert forall j :: 0 <= j < |init| ==> init[j] == targets[j];
      RowCount(rel, s, init) + (if rel(s, targets[|targets| - 1]) then 1 else 0)
  }

  /** The found count as the two nested loops compute it: every related
      (source, target) pair. */
  function PairCount<T>(rel: (T, T) -> bool, sources: seq<T>, targets: seq<T>): nat {
    if sources == [] then 0
    else PairCount(rel, sources[..|sources| - 1], targets) + RowCount(rel, sources[|sources| - 1], targets)
  }

  /** The match map after the inner loop for one source sense: each related
      target overwrites the entry of the source's name. */
  function MatchRow<S>(wn: WordNet<S>, threshold: int, s: S, targets: seq<S>, m: map<string, string>): map<string, string> {
    if targets == [] then m
    else
      var before := MatchRow(wn, threshold, s, targets[..|targets| - 1], m);
      var t := targets[|targets| - 1];
      if Close(wn, threshold, s, t) then before[wn.name(s) := wn.name(t)] else before
  }

  /** The match map after both loops. */
  function Matched<S>(wn: WordNet<S>, threshold: int, sources: seq<S>, targets: seq<S>): map<string, string> {
    if sources == [] then map[]
    else MatchRow(wn, threshold, sources[|sources| - 1], targets, Matched(wn, threshold, sources[..|sources| - 1], targets))
  }

  /** One share of the result: weight * found / total, with the NaN of an
      empty pool replaced by 0. */
  function Term(weight: real, found: nat, total: nat): (r: real)
    ensures total == 0 ==> r == 0.0
    ensures 0.0 <= weight && found <= total ==> 0.0 <= r <= weight
  {
    if total == 0 then 0.0
    else
      ShareBound(weight, found, total);
      weight * found as real / total as real
  }

  lemma ShareBound(weight: real, found: nat, total: nat)
    requires total > 0
    ensures 0.0 <= weight && found <= total ==> 0.0 <= weight * found as real / total as real <= weight
  {
    if 0.0 <= weight && found <= total {
      var f := found as real;
      var t := total as real;
      UnitQuotient(f, t);
      ScaleThenDivide(weight, f, t);
      ScaledBelow(weight, f / t);
    }
  }

  lemma ScaleThenDivide(a: real, f: real, t: real)
    requires 0.0 < t
    ensures a * f / t == a * (f / t)
  {
    var q := f / t;
    assert q * t == f;
    assert a * q * t == a * f;
  }

  lemma ScaledBelow(a: real, q: real)
    requires 0.0 <= a && 0.0 <= q <= 1.0
    ensures 0.0 <= a * q <= a
  {
    NonNegativeProduct(a, q);
    NonNegativeProduct(a, 1.0 - q);
    assert a * (1.0 - q) == a - a * q;
  }

  lemma UnitQuotient(f: real, t: real)
    requires 0.0 <= f <= t && 0.0 < t
    ensures 0.0 <= f / t <= 1.0
  {
    assert f / t * t == f;
  }

  lemma NonNegativeProduct(a: real, b: real)
    requires 0.0 <= a && 0.0 <= b
    ensures 0.0 <= a * b
  {
  }

  /** The result for given pools and found counts: the two shares mixed
      with alpha, and the match map of the sense pools. */
  function Mix<S>(wn: WordNet<S>, p: Params, us: Pools<S>, ac: Pools<S>, semanticFound: nat, literalFound: nat): WordnetResult {
    WordnetResult(
      Term(p.alpha, semanticFound, |us.senses|) + Term(1.0 - p.alpha, literalFound, |us.literal|),
      Matched(wn, p.threshold, us.senses, ac.senses))
  }

  /** The result for given pools as the source computes it: every related
      pair counts. */
  function OnPools<S>(wn: WordNet<S>, p: Params, us: Pools<S>, ac: Pools<S>): WordnetResult {
    Mix(wn, p, us, ac, PairCount(CloseRel(wn, p.threshold), us.senses, ac.senses), PairCount(SameWord, us.literal, ac.literal))
  }

  /** The whole calculation as the source writes it. */
  function Calculation<S>(wn: WordNet<S>, p: Params, usTopics: seq<Topic>, acTopics: seq<Topic>): (r: Result<WordnetResult>)
    ensures r.Failure? <==> SomeUntagged(usTopics) || SomeUntagged(acTopics)
  {
    var us :- BuildPools(wn, usTopics);
    var ac :- BuildPools(wn, acTopics);
    Success(OnPools(wn, p, us, ac))
  }

  /* ---------------------------------------------------------------------
     The loops
     --------------------------------------------------------------------- */

  /** The literal loops: every equal (source, target) pair adds one. */
  method CountPairs<T>(rel: (T, T) -> bool, sources: seq<T>, targets: seq<T>) returns (found: nat)
    ensures found == PairCount(rel, sources, targets)
  {
    found := 0;
    var i := 0;
    while i < |sources|
      invariant 0 <= i <= |sources|
      invariant found == PairCount(rel, sources[..i], targets)
    {
      var j := 0;
      var row := 0;
      while j < |targets|
        invariant 0 <= j <= |targets|
        invariant row == RowCount(rel, sources[i], targets[..j])
      {
        assert targets[..j + 1][..j] == targets[..j];
        if rel(sources[i], targets[j]) {
          row := row + 1;
        }
        j := j + 1;
      }
      assert targets[..j] == targets;
      assert sources[..i + 1][..i] == sources[..i];
      found := found + row;
      i := i + 1;
    }
    assert sources[..i] == sources;
  }

  /** The semantic loops: every close pair adds one and records the match. */
  method CountClose<S>(wn: WordNet<S>, threshold: int, sources: seq<S>, targets: seq<S>)
    returns (found: nat, matched: map<string, string>)
    ensures found == PairCount(CloseRel(wn, threshold), sources, targets)
    ensures matched == Matched(wn, threshold, sources, targets)
  {
    found := 0;
    matched := map[];
    var i := 0;
    while i < |sources|
      invariant 0 <= i <= |sources|
      invariant found == PairCount(CloseRel(wn, threshold), sources[..i], targets)
      invariant matched == Matched(wn, threshold, sources[..i], targets)
    {
      var before := matched;
      var j := 0;
      var row := 0;
      while j < |targets|
        invariant 0 <= j <= |targets|
        invariant row == RowCount(CloseRel(wn, threshold), sources[i], targets[..j])
        invariant matched == MatchRow(wn, threshold, sources[i], targets[..j], before)
      {
        assert targets[..j + 1][..j] == targets[..j];
        if wn.shallowest(sources[i], targets[j]).Some? && wn.shallowest(sources[i], targets[j]).value < threshold {
          row := row + 1;
          matched := matched[wn.name(sources[i]) := wn.name(targets[j])];
        }
        j := j + 1;
      }
      assert targets[..j] == targets;
      assert sources[..i + 1][..i] == sources[..i];
      found := found + row;
      i := i + 1;
    }
    assert sources[..i] == sources;
  }

  /** `calculate_completeness`: build both pools, run both pairs of loops and
      mix the shares. */
  method CalculateCompleteness<S>(wn: WordNet<S>, p: Params, usTopics: seq<Topic>, acTopics: seq<Topic>)
    returns (r: Result<WordnetResult>)
    ensures r == Calculation(wn, p, usTopics, acTopics)
  {
    var usPools := BuildPools(wn, usTopics);
    if usPools.Failure? {
      return Failure(usPools.error);
    }
    var acPools := BuildPools(wn, acTopics);
    if acPools.Failure? {
      return Failure(acPools.error);
    }
    var result := Combine(wn, p, usPools.value, acPools.value);
    r := Success(result);
    CalculationOnPools(wn, p, usTopics, acTopics);
  }

  /** The two loops and the mixing, once both pools are built. */
  method Combine<S>(wn: WordNet<S>, p: Params, us: Pools<S>, ac: Pools<S>) returns (result: WordnetResult)
    ensures result == OnPools(wn, p, us, ac)
  {
    var literalFound := CountPairs(SameWord, us.literal, ac.literal);
    var semanticFound, matched := CountClose(wn, p.threshold, us.senses, ac.senses);
    var semantic := Term(p.alpha, semanticFound, |us.senses|);
    var literal := Term(1.0 - p.alpha, literalFound, |us.literal|);
    result := WordnetResult(semantic + literal, matched);
  }

  /** With both pools built, the calculation is the result on them. */
  lemma CalculationOnPools<S>(wn: WordNet<S>, p: Params, usTopics: seq<Topic>, acTopics: seq<Topic>)
    requires BuildPools(wn, usTopics).Success? && BuildPools(wn, acTopics).Success?
    ensures Calculation(wn, p, usTopics, acTopics)
      == Success(OnPools(wn, p, BuildPools(wn, usTopics).value, BuildPools(wn, acTopics).value))
  {
  }

  /* ---------------------------------------------------------------------
     Corrected counting: a source word is found once
     --------------------------------------------------------------------- */

  /** The number of sources related to at least one target: the count the
      loops give when the inner loop is left at the first match. */
  function FirstMatchCount<T>(rel: (T, T) -> bool, sources: seq<T>, targets: seq<T>): (n: nat)
    ensures n <= |sources|
  {
    if sources == [] then 0
    else FirstMatchCount(rel, sources[..|sources| - 1], targets) + (if RowCount(rel, sources[|sources| - 1], targets) > 0 then 1 else 0)
  }

  /** Every source word is related to at most one target word. */
  predicate UniqueMatches<T>(rel: (T, T) -> bool, sources: seq<T>, targets: seq<T>) {
    forall i :: 0 <= i < |sources| ==> RowCount(rel, sources[i], targets) <= 1
  }

  /** The result for given pools with each source word found at most once. */
  function CorrectedOnPools<S>(wn: WordNet<S>, p: Params, us: Pools<S>, ac: Pools<S>): (r: WordnetResult)
    ensures 0.0 <= p.alpha <= 1.0 ==> 0.0 <= r.completeness <= 1.0
    ensures r.matched == OnPools(wn, p, us, ac).matched
  {
    Mix(wn, p, us, ac, FirstMatchCount(CloseRel(wn, p.threshold), us.senses, ac.senses), FirstMatchCount(SameWord, us.literal, ac.literal))
  }

  /** The calculation with each source word found at most once. */
  function CorrectedCalculation<S>(wn: WordNet<S>, p: Params, usTopics: seq<Topic>, acTopics: seq<Topic>): (r: Result<WordnetResult>)
    ensures r.Failure? <==> SomeUntagged(usTopics) || SomeUntagged(acTopics)
    ensures r.Success? && 0.0 <= p.alpha <= 1.0 ==> 0.0 <= r.value.completeness <= 1.0
  {
    var us :- BuildPools(wn, usTopics);
    var ac :- BuildPools(wn, acTopics);
    Success(CorrectedOnPools(wn, p, us, ac))
  }

  /* ---------------------------------------------------------------------
     Properties
     --------------------------------------------------------------------- */

  /** The pools partition the words: a word is a literal exactly when it
      does not resolve, and every literal comes from the topic. */
  lemma {:induction false} SortWordsPartition<S>(wn: WordNet<S>, tag: Option<Pos>, words: seq<string>)
    ensures forall i :: 0 <= i < |SortWords(wn, tag, words).literal| ==>
      SortWords(wn, tag, words).literal[i] in words && !Resolves(wn, tag, SortWords(wn, tag, words).literal[i])
    ensures forall w :: w in words && !Resolves(wn, tag, w) ==> w in SortWords(wn, tag, words).literal
    ensures forall w :: w in words && Resolves(wn, tag, w) ==> wn.lookup(tag.value, w).value in multiset(SortWords(wn, tag, words).senses)
  {
    if words != [] {
      SortWordsPartition(wn, tag, words[1..]);
      assert forall w :: w in words ==> w == words[0] || w in words[1..];
    }
  }

  /** A row-count of more than one is found once by the corrected rule;
      the pair count exceeds the first-match count exactly when some source
      word is related to two or more targets. */
  lemma {:induction false} PairCountVersusFirstMatch<T>(rel: (T, T) -> bool, sources: seq<T>, targets: seq<T>)
    ensures FirstMatchCount(rel, sources, targets) <= PairCount(rel, sources, targets)
    ensures FirstMatchCount(rel, sources, targets) == PairCount(rel, sources, targets) <==> UniqueMatches(rel, sources, targets)
  {
    if sources != [] {
      var init := sources[..|sources| - 1];
      var last := sources[|sources| - 1];
      PairCountVersusFirstMatch(rel, init, targets);
      assert forall i :: 0 <= i < |init| ==> init[i] == sources[i];
      if UniqueMatches(rel, sources, targets) {
        assert RowCount(rel, sources[|sources| - 1], targets) <= 1;
      }
    }
  }

  /** With alpha in [0, 1] and every source word related to at most one
      target word, the completeness is in [0, 1] and agrees with the
      corrected rule. */
  lemma BoundedWhenUnique<S>(wn: WordNet<S>, p: Params, us: Pools<S>, ac: Pools<S>)
    requires 0.0 <= p.alpha <= 1.0
    requires UniqueMatches(CloseRel(wn, p.threshold), us.senses, ac.senses)
    requires UniqueMatches(SameWord, us.literal, ac.literal)
    ensures OnPools(wn, p, us, ac) == CorrectedOnPools(wn, p, us, ac)
    ensures 0.0 <= OnPools(wn, p, us, ac).completeness <= 1.0
  {
    PairCountVersusFirstMatch(CloseRel(wn, p.threshold), us.senses, ac.senses);
    PairCountVersusFirstMatch(SameWord, us.literal, ac.literal);
  }

  /** The pools of a single tagged topic are the sorted words of that topic. */
  lemma BuildPoolsSingle<S>(wn: WordNet<S>, t: Topic)
    requires t.tag != []
    ensures BuildPools(wn, [t]) == Success(SortWords(wn, GetPosTag(t).value, Words(t)))
  {
    assert [t][1..] == [];
    var first := SortWords(wn, GetPosTag(t).value, Words(t));
    assert first.senses + [] == first.senses && first.literal + [] == first.literal;
  }

  /** The words of "foo" and of "foo foo". */
  lemma FooWords()
    ensures Words(Topic("foo", "IN")) == ["foo"]
    ensures Words(Topic("foo foo", "IN")) == ["foo", "foo"]
  {
    assert ' ' !in "foo";
    SplitTwoWords("foo", "foo");
    assert "foo" + " " + "foo" == "foo foo";
  }

  /** The pools of the topics "foo" and "foo foo" under the tag IN, which
      names no part of speech. */
  lemma FooPools<S>(wn: WordNet<S>)
    ensures BuildPools(wn, [Topic("foo", "IN")]) == Success(Pools([], ["foo"]))
    ensures BuildPools(wn, [Topic("foo foo", "IN")]) == Success(Pools([], ["foo", "foo"]))
  {
    PosTagExamples("foo");
    PosTagExamples("foo foo");
    FooWords();
    BuildPoolsSingle(wn, Topic("foo", "IN"));
    BuildPoolsSingle(wn, Topic("foo foo", "IN"));
  }

  /** "foo" against the target topic "foo foo" with an unresolvable tag:
      one literal word, found twice, gives completeness 2 with alpha 0,
      where the corrected rule gives 1. */
  lemma LiteralOvercountExample<S>(wn: WordNet<S>)
    ensures Calculation(wn, Params(0.0, 3), [Topic("foo", "IN")], [Topic("foo foo", "IN")]).value.completeness == 2.0
    ensures CorrectedCalculation(wn, Params(0.0, 3), [Topic("foo", "IN")], [Topic("foo foo", "IN")]).value.completeness == 1.0
  {
    FooPools(wn);
    FooCounts();
  }

  /** "foo" is found twice in ["foo", "foo"] by pairs, once by first
      match. */
  lemma FooCounts()
    ensures PairCount(SameWord, ["foo"], ["foo", "foo"]) == 2
    ensures FirstMatchCount(SameWord, ["foo"], ["foo", "foo"]) == 1
  {
    var ac := ["foo", "foo"];
    assert RowCount(SameWord, "foo", ac) == 2 by {
      assert ac[..1] == ["foo"];
    }
    assert [] + ["foo"] == ["foo"];
  }

  /** Target `j` is the last target close to `s`. */
  predicate LastClose<S>(wn: WordNet<S>, threshold: int, s: S, targets: seq<S>, j: int) {
    0 <= j < |targets| && Close(wn, threshold, s, targets[j])
    && forall l :: j < l < |targets| ==> !Close(wn, threshold, s, targets[l])
  }

  /** The inner loop for one source sense leaves every other entry alone. */
  lemma {:induction false} MatchRowOthers<S>(wn: WordNet<S>, threshold: int, s: S, targets: seq<S>, m: map<string, string>, k: string)
    requires k != wn.name(s)
    ensures k in MatchRow(wn, threshold, s, targets, m) <==> k in m
    ensures k in m ==> MatchRow(wn, threshold, s, targets, m)[k] == m[k]
  {
    if targets != [] {
      MatchRowOthers(wn, threshold, s, targets[..|targets| - 1], m, k);
    }
  }

  /** After the inner loop the source's entry exists exactly when it existed
      before or some target is close. */
  lemma {:induction false} MatchRowKey<S>(wn: WordNet<S>, threshold: int, s: S, targets: seq<S>, m: map<string, string>)
    ensures wn.name(s) in MatchRow(wn, threshold, s, targets, m) <==>
      wn.name(s) in m || exists j :: 0 <= j < |targets| && Close(wn, threshold, s, targets[j])
  {
    if targets != [] {
      var init := targets[..|targets| - 1];
      MatchRowKey(wn, threshold, s, init, m);
      assert forall j :: 0 <= j < |init| ==> init[j] == targets[j];
    }
  }

  /** The last close target wins the source's entry. */
  lemma {:induction false} MatchRowLastWins<S>(wn: WordNet<S>, threshold: int, s: S, targets: seq<S>, m: map<string, string>, j: int)
    requires LastClose(wn, threshold, s, targets, j)
    ensures wn.name(s) in MatchRow(wn, threshold, s, targets, m)
    ensures MatchRow(wn, threshold, s, targets, m)[wn.name(s)] == wn.name(targets[j])
  {
    var init := targets[..|targets| - 1];
    if j < |targets| - 1 {
      assert !Close(wn, threshold, s, targets[|targets| - 1]);
      assert init[j] == targets[j];
      MatchRowLastWins(wn, threshold, s, init, m, j);
    }
  }

  /** A key of the match map is the name of a source sense that is close to
      some target sense, and every such name is a key. */
  lemma {:induction false} MatchedKeys<S>(wn: WordNet<S>, threshold: int, sources: seq<S>, targets: seq<S>)
    ensures forall k :: k in Matched(wn, threshold, sources, targets) <==>
      exists i, j :: 0 <= i < |sources| && 0 <= j < |targets| && wn.name(sources[i]) == k && Close(wn, threshold, sources[i], targets[j])
  {
    if sources != [] {
      var init := sources[..|sources| - 1];
      var s := sources[|sources| - 1];
      var before := Matched(wn, threshold, init, targets);
      MatchedKeys(wn, threshold, init, targets);
      MatchRowKey(wn, threshold, s, targets, before);
      forall k
        ensures k in Matched(wn, threshold, sources, targets) <==>
          exists i, j :: 0 <= i < |sources| && 0 <= j < |targets| && wn.name(sources[i]) == k && Close(wn, threshold, sources[i], targets[j])
      {
        if k != wn.name(s) {
          MatchRowOthers(wn, threshold, s, targets, before, k);
        }
        if k in before {
          var i, j :| 0 <= i < |init| && 0 <= j < |targets| && wn.name(init[i]) == k && Close(wn, threshold, init[i], targets[j]);
          assert sources[i] == init[i];
        }
        if exists i, j :: 0 <= i < |sources| && 0 <= j < |targets| && wn.name(sources[i]) == k && Close(wn, threshold, sources[i], targets[j]) {
          var i, j :| 0 <= i < |sources| && 0 <= j < |targets| && wn.name(sources[i]) == k && Close(wn, threshold, sources[i], targets[j]);
          if i < |init| {
            assert init[i] == sources[i];
          }
        }
      }
    }
  }

  /** A toy dictionary over plain strings: every word is its own sense, and
      two senses are related at depth 0 exactly when they are equal. */
  function Identity(): WordNet<string> {
    WordNet((p: Pos, w: string) => Some(w), (a: string, b: string) => if a == b then Some(0) else None, (a: string) => a)
  }

  /** The `continue` of the semantic loop does not leave it: one source sense
      close to two target senses is found twice, which with alpha 1 gives a
      semantic share of 2, where the corrected rule gives 1. */
  lemma SemanticOvercountExample()
    ensures OnPools(Identity(), Params(1.0, 3), Pools(["mouse"], []), Pools(["mouse", "mouse"], [])).completeness == 2.0
    ensures CorrectedOnPools(Identity(), Params(1.0, 3), Pools(["mouse"], []), Pools(["mouse", "mouse"], [])).completeness == 1.0
    ensures OnPools(Identity(), Params(1.0, 3), Pools(["mouse"], []), Pools(["mouse", "mouse"], [])).matched == map["mouse" := "mouse"]
  {
    var rel := CloseRel(Identity(), 3);
    var targets := ["mouse", "mouse"];
    assert rel("mouse", "mouse");
    assert RowCount(rel, "mouse", targets) == 2 by {
      assert targets[..1] == ["mouse"];
    }
    assert ["mouse"][..0] == [];
    assert PairCount(rel, ["mouse"], targets) == 2;
    assert FirstMatchCount(rel, ["mouse"], targets) == 1;
    assert MatchRow(Identity(), 3, "mouse", targets, map[]) == map["mouse" := "mouse"] by {
      assert targets[..1] == ["mouse"];
    }
  }
}
