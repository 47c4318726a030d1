/** The facts the generator reads from a parsed sentence, given as data: the
    tokens with their tags and character positions, and the dependency tree
    as each token's head and the short name of the relation to it. Token
    indices are 1-based, as in the dependency graph; the tag lists are
    0-based. */
module Parses {
  import opened Wrappers

  /** One token: its text, part-of-speech tag, named-entity tag, and the
      positions of its first character and one past its last in the text. */
  datatype Token = Token(word: string, pos: string, ner: string, begin: int, end: int)

  /** A parsed sentence. `head[i]` is the 1-based index of the head of token
      `i + 1`, or 0 for the root; `relation[i]` names the edge to it. */
  datatype Sentence = Sentence(tokens: seq<Token>, head: seq<nat>, relation: seq<string>)

  /** The lists line up and every head is a token or the root. */
  predicate WellFormed(s: Sentence) {
    |s.head| == |s.tokens| && |s.relation| == |s.tokens|
    && forall i :: 0 <= i < |s.head| ==> s.head[i] <= |s.tokens|
  }

  /** `index` names a token. */
  predicate IsNode(s: Sentence, index: int) {
    1 <= index <= |s.tokens|
  }

  /** `getNodeByIndex`, which throws for an index without a token. */
  function Node(s: Sentence, index: int): (r: Result<Token>)
    ensures r.Success? <==> IsNode(s, index)
    ensures r.Success? ==> r.value == s.tokens[index - 1]
  {
    if IsNode(s, index) then Success(s.tokens[index - 1]) else Failure(NoSuchNode)
  }

  /** `getParent` of a token: the index of its head, `None` for the root
      (where the source gets `null`). */
  function Parent(s: Sentence, index: int): (r: Result<Option<nat>>)
    requires WellFormed(s)
    ensures r.Success? <==> IsNode(s, index)
    ensures r.Success? && r.value.Some? ==> IsNode(s, r.value.value) && r.value.value == s.head[index - 1]
  {
    if !IsNode(s, index) then Failure(NoSuchNode)
    else if s.head[index - 1] == 0 then Success(None)
    else Success(Some(s.head[index - 1]))
  }

  /** The tokens among the first `n` whose head is `parent`, in index
      order. */
  function ChildrenUpTo(s: Sentence, parent: nat, n: nat): (r: seq<nat>)
    requires WellFormed(s) && n <= |s.tokens|
    ensures forall i, j :: 0 <= i < j < |r| ==> r[i] < r[j]
    ensures forall c :: c in r <==> 1 <= c <= n && s.head[c - 1] == parent
  {
    if n == 0 then []
    else
      var before := ChildrenUpTo(s, parent, n - 1);
      assert forall i :: 0 <= i < |before| ==> before[i] in before;
      before + (if s.head[n - 1] == parent then [n] else [])
  }

  /** `getChildList`: the tokens whose head is `parent`, in index order. */
  function Children(s: Sentence, parent: nat): (r: seq<nat>)
    requires WellFormed(s)
    ensures forall i, j :: 0 <= i < j < |r| ==> r[i] < r[j]
    ensures forall c :: c in r <==> IsNode(s, c) && s.head[c - 1] == parent
  {
    ChildrenUpTo(s, parent, |s.tokens|)
  }

  /** The part-of-speech tags, `posTags()`. */
  function PosTags(s: Sentence): (r: seq<string>)
    ensures |r| == |s.tokens| && forall i :: 0 <= i < |r| ==> r[i] == s.tokens[i].pos
  {
    seq(|s.tokens|, i requires 0 <= i < |s.tokens| => s.tokens[i].pos)
  }

  /** The named-entity tags, `nerTags()`. */
  function NerTags(s: Sentence): (r: seq<string>)
    ensures |r| == |s.tokens| && forall i :: 0 <= i < |r| ==> r[i] == s.tokens[i].ner
  {
    seq(|s.tokens|, i requires 0 <= i < |s.tokens| => s.tokens[i].ner)
  }

  /** The token texts, `tokensAsStrings()`. */
  function Words(s: Sentence): (r: seq<string>)
    ensures |r| == |s.tokens| && forall i :: 0 <= i < |r| ==> r[i] == s.tokens[i].word
  {
    seq(|s.tokens|, i requires 0 <= i < |s.tokens| => s.tokens[i].word)
  }
}
