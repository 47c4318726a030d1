/** Helpers shared by the Gherkin generator's utilities: the words that open
    a conditional clause, and the third-person singular of a present-tense
    verb. */
module SharedUtils {
  import opened Wrappers
  import opened Strings

  /** `conditionalStarterStrings`, in the order the postprocessing tries
      them. */
  const ConditionalStarters: seq<string> := ["if", "when", "once", "whenever", "after", "during"]

  /** The vowels the "-ies" rule looks for before a final 'y'; upper-case
      vowels are not among them. */
  const Vowels: set<char> := {'a', 'e', 'i', 'o', 'u'}

  /** The verbs with their own third-person form. */
  predicate IsIrregular(verb: string) {
    verb == "am" || verb == "be" || verb == "have" || verb == "do" || verb == "go"
  }

  /** The verb ends, ignoring case, in x, ss, ch or sh. */
  predicate EndsWithSibilant(verb: string) {
    var n := |verb|;
    (n >= 1 && Lower(verb[n - 1]) == 'x')
    || (n >= 2 && Lower(verb[n - 2]) in {'s', 'c'} && Lower(verb[n - 1]) == 'h')
    || (n >= 2 && Lower(verb[n - 2]) == 's' && Lower(verb[n - 1]) == 's')
  }

  /** The verb ends, ignoring case, in y. */
  predicate EndsWithY(verb: string) {
    |verb| > 0 && Lower(verb[|verb| - 1]) == 'y'
  }

  /** `heSheItDasSMussMit`: irregular verbs by table, then "-es", "-ies" or
      "-s" by the ending. A verb that is a lone 'y' reads the character
      before it and throws. */
  function ThirdPerson(verb: string): (r: Result<string>)
    ensures r.Failure? <==> |verb| == 1 && EndsWithY(verb)
    ensures r.Failure? ==> r.error == IndexOutOfBounds
    ensures r.Success? ==> EndsWith(r.value, "s")
  {
    if verb == "am" || verb == "be" then Success("is")
    else if verb == "have" then Success("has")
    else if verb == "do" then Success("does")
    else if verb == "go" then Success("goes")
    else if EndsWithSibilant(verb) then Success(verb + "es")
    else if EndsWithY(verb) then
      if |verb| < 2 then Failure(IndexOutOfBounds)
      else if verb[|verb| - 2] in Vowels then Success(verb + "s")
      else Success(verb[..|verb| - 1] + "ies")
    else Success(verb + "s")
  }

  /* ---------------------------------------------------------------------
     Properties
     --------------------------------------------------------------------- */

  /** A regular verb keeps everything but possibly its last letter, and
      grows by one or two letters; the last letter goes only for "-ies". */
  lemma RegularKeepsStem(verb: string)
    requires !IsIrregular(verb) && ThirdPerson(verb).Success?
    ensures var r := ThirdPerson(verb).value;
      |verb| > 0 ==> StartsWith(r, verb[..|verb| - 1])
    ensures var r := ThirdPerson(verb).value;
      StartsWith(r, verb) <==> !(EndsWithY(verb) && !EndsWithSibilant(verb) && verb[|verb| - 2] !in Vowels)
    ensures var r := ThirdPerson(verb).value;
      |r| == |verb| + 1 || |r| == |verb| + 2
  {
    var r := ThirdPerson(verb).value;
    if EndsWithY(verb) && !EndsWithSibilant(verb) && verb[|verb| - 2] !in Vowels {
      assert r == verb[..|verb| - 1] + "ies";
      assert r[|verb| - 1] == 'i' != verb[|verb| - 1] by { assert Lower('i') == 'i'; }
    }
  }

  /** The sibilant endings take "-es" and nothing else does, among the
      regular verbs. */
  lemma EsIff(verb: string)
    requires !IsIrregular(verb)
    ensures ThirdPerson(verb) == Success(verb + "es") <==> EndsWithSibilant(verb)
  {
    if !EndsWithSibilant(verb) && ThirdPerson(verb).Success? {
      var r := ThirdPerson(verb).value;
      assert r != verb + "es" by {
        if EndsWithY(verb) && verb[|verb| - 2] !in Vowels {
          assert r[|verb| - 1] == 'i' != Lower('y');
        }
      }
    }
  }

  /** The sibilant test is the source's suffix test on the lower-cased
      verb. */
  lemma SibilantIsLowerSuffix(verb: string)
    ensures var v := ToLower(verb);
      EndsWithSibilant(verb) <==> EndsWith(v, "x") || EndsWith(v, "ss") || EndsWith(v, "ch") || EndsWith(v, "sh")
  {
    var v := ToLower(verb);
    SibilantByLowerChars(verb);
    EndsWithOne(v, 'x');
    EndsWithTwo(v, 's', 's');
    EndsWithTwo(v, 'c', 'h');
    EndsWithTwo(v, 's', 'h');
  }

  /** The sibilant test reads the last characters of the lower-cased verb. */
  lemma SibilantByLowerChars(verb: string)
    ensures var v := ToLower(verb); var n := |v|;
      EndsWithSibilant(verb) <==>
        (n >= 1 && v[n - 1] == 'x') || (n >= 2 && v[n - 2] == 'c' && v[n - 1] == 'h')
        || (n >= 2 && v[n - 2] == 's' && v[n - 1] == 'h') || (n >= 2 && v[n - 2] == 's' && v[n - 1] == 's')
  {
  }

  /** A one-letter suffix test is a test of the last character. */
  lemma EndsWithOne(v: string, c: char)
    ensures EndsWith(v, [c]) <==> |v| >= 1 && v[|v| - 1] == c
  {
    if |v| >= 1 {
      assert v[|v| - 1..] == [v[|v| - 1]];
    }
  }

  /** A two-letter suffix test is a test of the last two characters. */
  lemma EndsWithTwo(v: string, a: char, b: char)
    ensures EndsWith(v, [a, b]) <==> |v| >= 2 && v[|v| - 2] == a && v[|v| - 1] == b
  {
    if |v| >= 2 {
      assert v[|v| - 2..] == [v[|v| - 2], v[|v| - 1]];
    }
  }

  /** The irregular table. */
  lemma IrregularVerbs()
    ensures ThirdPerson("am") == ThirdPerson("be") == Success("is")
    ensures ThirdPerson("have") == Success("has")
    ensures ThirdPerson("do") == Success("does")
    ensures ThirdPerson("go") == Success("goes")
  {
  }

  /** "want" becomes "wants", the verb the user-story parser expects in the
      third person. */
  lemma WantExample()
    ensures ThirdPerson("want") == Success("wants")
  {
    assert "want"[0] != "have"[0];
    assert !EndsWithSibilant("want") && !EndsWithY("want");
    assert "want" + "s" == "wants";
  }

  /** The regular endings on examples: "fixes", "passes", "tries", "plays",
      and a capital 'Y' after a vowel still takes "-s", while after a capital
      vowel it takes "-ies". */
  lemma RegularExamples()
    ensures ThirdPerson("fix") == Success("fixes")
    ensures ThirdPerson("pass") == Success("passes")
    ensures ThirdPerson("try") == Success("tries")
    ensures ThirdPerson("play") == Success("plays")
    ensures ThirdPerson("sAy") == Success("sAies")
    ensures ThirdPerson("y").Failure?
  {
    SibilantExamples();
    YExamples();
  }

  /** "fix" and "pass" take "-es". */
  lemma SibilantExamples()
    ensures ThirdPerson("fix") == Success("fixes")
    ensures ThirdPerson("pass") == Success("passes")
  {
    assert EndsWithSibilant("fix") && "fix" + "es" == "fixes";
    assert "pass"[0] != "have"[0];
    assert EndsWithSibilant("pass") && "pass" + "es" == "passes";
  }

  /** A final 'y' after a vowel takes "-s", after anything else "-ies". */
  lemma YExamples()
    ensures ThirdPerson("try") == Success("tries")
    ensures ThirdPerson("play") == Success("plays")
    ensures ThirdPerson("sAy") == Success("sAies")
  {
    assert "play"[0] != "have"[0];
    assert !EndsWithSibilant("play") && EndsWithY("play") && "play"[2] in Vowels;
    assert "play" + "s" == "plays";
    assert "try"[..2] + "ies" == "tries";
    assert "sAy"[..2] + "ies" == "sAies";
  }

  /** No starter is empty. */
  lemma StartersNonEmpty(j: int)
    requires 0 <= j < |ConditionalStarters|
    ensures |ConditionalStarters[j]| > 0
  {
  }

  /** The starter list is the six words, in this order. */
  lemma StarterOrder()
    ensures |ConditionalStarters| == 6
    ensures ConditionalStarters[0] == "if" && ConditionalStarters[5] == "during"
    ensures forall i, j :: 0 <= i < j < |ConditionalStarters| ==> ConditionalStarters[i] != ConditionalStarters[j]
  {
  }
}
