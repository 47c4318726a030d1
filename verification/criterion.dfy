/** Acceptance criteria as the generator produces them: a type that supplies
    the Gherkin keyword (or log severity) and the fixed text around the
    criterion's own words, the words themselves, and the positions in the
    user story that the criterion replaces. */
module Criteria {
  import opened JavaInts

  /** `AcceptanceCriterionType`, in declaration order. */
  datatype CriterionType =
    | Role
    | UserInterface
    | Action
    | ExpectedResult
    | ActionInReason
    | ExpectedResultInReason
    | ErrorLog
    | WarningLog
    | InfoLog
    | DebugLog

  /** Every type, in declaration order. */
  const AllTypes: seq<CriterionType> := [Role, UserInterface, Action, ExpectedResult, ActionInReason,
    ExpectedResultInReason, ErrorLog, WarningLog, InfoLog, DebugLog]

  /** The position of the type in its declaration, which `Enum.compareTo`
      compares. */
  function Ordinal(t: CriterionType): (n: nat)
    ensures n < |AllTypes| && AllTypes[n] == t
  {
    match t
    case Role => 0
    case UserInterface => 1
    case Action => 2
    case ExpectedResult => 3
    case ActionInReason => 4
    case ExpectedResultInReason => 5
    case ErrorLog => 6
    case WarningLog => 7
    case InfoLog => 8
    case DebugLog => 9
  }

  /** `isLog()` */
  predicate IsLog(t: CriterionType)
    ensures IsLog(t) <==> Ordinal(t) >= 6
  {
    t == ErrorLog || t == WarningLog || t == InfoLog || t == DebugLog
  }

  /** The severity word of a log type. */
  function Severity(t: CriterionType): string
    requires IsLog(t)
  {
    match t
    case ErrorLog => "ERROR"
    case WarningLog => "WARNING"
    case InfoLog => "INFO"
    case DebugLog => "DEBUG"
  }

  /** `getKeyword()` */
  function Keyword(t: CriterionType): (k: string)
    ensures k == "" <==> IsLog(t)
    ensures !IsLog(t) ==> k == "GIVEN" || k == "WHEN" || k == "THEN"
  {
    match t
    case Role => "GIVEN"
    case UserInterface => "GIVEN"
    case Action => "WHEN"
    case ActionInReason => "WHEN"
    case ExpectedResult => "THEN"
    case ExpectedResultInReason => "THEN"
    case _ => ""
  }

  /** `getPrefix()` */
  function Prefix(t: CriterionType): (p: string)
    ensures IsLog(t) ==> p == Severity(t) + ": "
    ensures !IsLog(t) ==> (p != "" <==> t == UserInterface)
  {
    match t
    case UserInterface => "the active user interface is "
    case ErrorLog => "ERROR: "
    case WarningLog => "WARNING: "
    case InfoLog => "INFO: "
    case DebugLog => "DEBUG: "
    case _ => ""
  }

  /** `getSuffix()` */
  function Suffix(t: CriterionType): (x: string)
    ensures x != "" <==> t == Role
  {
    if t == Role then " is using the software" else ""
  }

  /** `AcceptanceCriterion`: its words, its type and the first and last
      positions of the user story it replaces (-1 when there are none). */
  datatype Criterion = Criterion(raw: string, kind: CriterionType, begin: int, end: int)

  /** The two-argument constructor. */
  function NewCriterion(raw: string, kind: CriterionType): (c: Criterion)
    ensures c.raw == raw && c.kind == kind
    ensures c.begin == -1 && c.end == -1
  {
    Criterion(raw, kind, -1, -1)
  }

  /** The text before the criterion's own words. */
  function Lead(t: CriterionType): string {
    Keyword(t) + (if IsLog(t) then "" else " ") + Prefix(t)
  }

  /** `toString()` */
  function ToString(c: Criterion): (s: string)
    ensures |s| == |Lead(c.kind)| + |c.raw| + |Suffix(c.kind)|
    ensures s[|Lead(c.kind)|..|Lead(c.kind)| + |c.raw|] == c.raw
  {
    var s := Lead(c.kind) + c.raw + Suffix(c.kind);
    assert s[|Lead(c.kind)|..|Lead(c.kind)| + |c.raw|] == c.raw;
    s
  }

  /** The words of a criterion read back from its rendering. */
  function RawOf(t: CriterionType, s: string): string
    requires |Lead(t)| + |Suffix(t)| <= |s|
  {
    s[|Lead(t)|..|s| - |Suffix(t)|]
  }

  /** `compareTo`: by type in declaration order, and within one type by the
      difference of the begin positions, an `int` subtraction that wraps. */
  function CompareTo(a: Criterion, b: Criterion): (r: int)
    ensures IsInt32(r)
    ensures a.kind != b.kind ==> r != 0 && (r < 0 <==> Ordinal(a.kind) < Ordinal(b.kind))
    ensures a.kind == b.kind && IsInt32(a.begin - b.begin) ==> (r < 0 <==> a.begin < b.begin) && (r == 0 <==> a.begin == b.begin)
  {
    if a.kind == b.kind then Wrap32(a.begin - b.begin) else Ordinal(a.kind) - Ordinal(b.kind)
  }

  /* ---------------------------------------------------------------------
     Properties
     --------------------------------------------------------------------- */

  /** The ten types are distinct and listed in declaration order. */
  lemma DeclarationOrder()
    ensures forall t :: Ordinal(t) < |AllTypes| && AllTypes[Ordinal(t)] == t
    ensures forall i :: 0 <= i < |AllTypes| ==> Ordinal(AllTypes[i]) == i
  {
  }

  /** The log types are the ones with an empty keyword, and their prefix is
      their severity followed by ": ". */
  lemma LogTypes(t: CriterionType)
    ensures IsLog(t) <==> Keyword(t) == ""
    ensures IsLog(t) ==> Prefix(t) == Severity(t) + ": "
    ensures IsLog(t) <==> Ordinal(t) >= 6
  {
  }

  /** Role and UI criteria are GIVEN, actions WHEN and results THEN, whether
      or not they come from the reason. */
  lemma GherkinKeywords()
    ensures Keyword(Role) == Keyword(UserInterface) == "GIVEN"
    ensures Keyword(Action) == Keyword(ActionInReason) == "WHEN"
    ensures Keyword(ExpectedResult) == Keyword(ExpectedResultInReason) == "THEN"
  {
  }

  /** Only the role type has a suffix, and among the Gherkin types only the
      UI type has a prefix. */
  lemma FixedTexts(t: CriterionType)
    ensures Suffix(t) != "" <==> t == Role
    ensures !IsLog(t) ==> (Prefix(t) != "" <==> t == UserInterface)
  {
  }

  /** The rendering starts with the keyword, holds the criterion's words
      between the lead and the suffix, and ends with the suffix, so the words
      can be read back. */
  lemma ToStringRoundTrip(c: Criterion)
    ensures var s := ToString(c);
      |Lead(c.kind)| + |Suffix(c.kind)| <= |s|
      && s[..|Keyword(c.kind)|] == Keyword(c.kind)
      && s[|s| - |Suffix(c.kind)|..] == Suffix(c.kind)
      && RawOf(c.kind, s) == c.raw
  {
    var k, lead, suffix := Keyword(c.kind), Lead(c.kind), Suffix(c.kind);
    var s := lead + c.raw + suffix;
    ThreeParts(lead, c.raw, suffix);
    ThreeParts(k, lead[|k|..], c.raw + suffix);
    assert lead == k + lead[|k|..];
    assert s == k + lead[|k|..] + (c.raw + suffix);
  }

  /** The middle of a concatenation of three strings is the middle part. */
  lemma ThreeParts(a: string, b: string, c: string)
    ensures var s := a + b + c;
      s[..|a|] == a && s[|a|..|s| - |c|] == b && s[|s| - |c|..] == c
  {
  }

  /** A role criterion renders as GIVEN, its words and the role suffix. */
  lemma RoleExample()
    ensures ToString(Criterion("a developer", Role, 1, 2)) == "GIVEN a developer" + " is using the software"
  {
    assert Lead(Role) == "GIVEN ";
    assert Suffix(Role) == " is using the software";
    assert "GIVEN " + "a developer" == "GIVEN a developer";
  }

  /** An action criterion renders as WHEN and its words. */
  lemma ActionExample()
    ensures ToString(NewCriterion("he, she, it", Action)) == "WHEN he, she, it"
  {
    assert Lead(Action) == "WHEN ";
  }

  /** A reason result renders as THEN and its words. */
  lemma ReasonResultExample()
    ensures ToString(NewCriterion("das s muss mit", ExpectedResultInReason)) == "THEN das s muss mit"
  {
    assert Lead(ExpectedResultInReason) == "THEN ";
  }

  /** A log criterion renders as its severity, a colon and its words, with
      no space before the prefix. */
  lemma LogExample()
    ensures ToString(NewCriterion("Beep boop!", DebugLog)) == "DEBUG: Beep boop!"
  {
    assert Lead(DebugLog) == "DEBUG: ";
  }

  /** For begin positions whose difference fits an `int`, `compareTo` is
      antisymmetric in sign and is 0 exactly for equal types and begins. */
  lemma CompareToSigns(a: Criterion, b: Criterion)
    requires IsInt32(a.begin - b.begin) && IsInt32(b.begin - a.begin)
    ensures CompareTo(a, b) < 0 <==> CompareTo(b, a) > 0
    ensures CompareTo(a, b) == 0 <==> a.kind == b.kind && a.begin == b.begin
    ensures a.kind != b.kind ==> (CompareTo(a, b) < 0 <==> Ordinal(a.kind) < Ordinal(b.kind))
  {
    if a.kind == b.kind {
      assert CompareTo(a, b) == a.begin - b.begin;
      assert CompareTo(b, a) == b.begin - a.begin;
    } else {
      DeclarationOrder();
      assert Ordinal(a.kind) != Ordinal(b.kind) by {
        assert AllTypes[Ordinal(a.kind)] != AllTypes[Ordinal(b.kind)];
      }
    }
  }

  /** The test orderings: actions before results, an earlier action before
      a later one, story actions before reason actions, reason actions
      before reason results, and the log types
      by decreasing severity. */
  lemma CompareToExamples()
    ensures CompareTo(Criterion("he, she, it", Action, 1, 5), NewCriterion("das s muss mit", ExpectedResult)) < 0
    ensures CompareTo(Criterion("he, she, it", Action, 1, 5), Criterion("she, it", Action, 3, 5)) < 0
    ensures CompareTo(Criterion("he, she, it", Action, 1, 5), NewCriterion("he, she, it", ActionInReason)) < 0
    ensures CompareTo(NewCriterion("he, she, it", ActionInReason), NewCriterion("das s muss mit", ExpectedResultInReason)) < 0
    ensures CompareTo(NewCriterion("e", ErrorLog), NewCriterion("w", WarningLog)) < 0
    ensures CompareTo(NewCriterion("w", WarningLog), NewCriterion("i", InfoLog)) < 0
    ensures CompareTo(NewCriterion("i", InfoLog), NewCriterion("d", DebugLog)) < 0
  {
  }

  /** Begin positions whose difference leaves the `int` range break the sign
      antisymmetry: both directions compare below 0. */
  lemma CompareToWrapExample()
    ensures CompareTo(Criterion("a", Action, MinInt, 0), Criterion("b", Action, 0, 0)) < 0
    ensures CompareTo(Criterion("b", Action, 0, 0), Criterion("a", Action, MinInt, 0)) < 0
  {
    assert Wrap32(0 - MinInt) == MinInt;
  }
}
