# A Dafny model of the completeness and Gherkin-generation cores

This project models the text-processing core of the UVL acceptance-criteria
service. The service has two pipelines.

- **Completeness** (`accompleteness`):
  - a user story and its acceptance criteria are cut out of a document;
  - the story is split into its role, goal and reason;
  - topics are extracted from both texts and filtered;
  - a naive calculator and a WordNet calculator measure what share of the
    story's topics the criteria cover.
- **Generation** (`acgen`):
  - the NLP parse of a user story is turned into Gherkin acceptance criteria
    (GIVEN / WHEN / THEN plus log messages);
  - pronouns are rewritten to "the user" with the verb in the third person;
  - the end of a UI description, an action and an expected result are
    located;
  - overlapping criteria are cut;
  - everything is rendered into the JSON response with indices that encode
    the story number.

The NLP parses (Stanford CoreNLP's dependency graph, part-of-speech and
named-entity tags, coreference chains, OpenIE triples) and WordNet are not
computed here. They are inputs. A sentence is a sequence of tokens, each
with its word, tag, named-entity tag and character span, together with the
head and relation of every token in the dependency tree (`Parses`). WordNet
is a record of functions: a lookup, a name and a distance (`WordnetCalculator`).
Java exceptions are values: `Result` failures name the exception
(`IndexOutOfBounds`, `NullPointer`, `NoSuchNode`, `NoUserStory`), and `Option`
stands for a `null` return. Java's 32-bit `int` arithmetic is modelled where
the code can overflow (`JavaInts.Wrap32`).

Modules, one per file:

| file | module | models |
|---|---|---|
| wrappers.dfy | Wrappers | `Option` and `Result` |
| java_int.dfy | JavaInts | 32-bit wrap-around |
| strings.dfy | Strings | the `java.lang.String` operations the code uses: `indexOf`, `lastIndexOf`, `startsWith`, `endsWith`, `replace`, `split(" ")`, `\s+` collapsing, ASCII case mapping, decimal `int` rendering |
| parses.dfy | Parses | the dependency parse of one sentence |
| topics.dfy | Topics | `Topic`, `Relationship` |
| user_story.dfy | UserStories | `accompleteness/model/UserStory` |
| naive_calculator.dfy | NaiveCalculator | `NaiveCompletenessCalculator` |
| wordnet_calculator.dfy | WordnetCalculator | `WordnetCompletenessCalculator` |
| us_extractor.dfy | UsExtractor | `OpenIEUSExtractor` |
| run_rest.dfy | RestRunner | the completeness `RunRest` document handling |
| criterion.dfy | Criteria | `AcceptanceCriterionType`, `AcceptanceCriterion` |
| uvl_response.dfy | GeneratorResponse | `acgen/model/UvlResponse` |
| shared_utils.dfy | SharedUtils | `SharedUtils` |
| postprocessing.dfy | Postprocessing | `PostprocessingUtils` |
| result_utils.dfy | ResultUtils | `ResultUtils` |
| preprocessing.dfy | Preprocessing | `PreprocessingUtils` |
| ui_precondition.dfy | UIPrecondition | `UIPreconditionUtils` |
| action_utils.dfy | ActionUtils | `ActionUtils` |

## Model

| member | source | states |
|---|---|---|
| Topics.GetPosTag | src/main/java/de/uhd/ifi/se/accompleteness/model/Topic.java:23-32 | An empty tag fails, because `substring(0,1)` throws. Otherwise a part of speech is returned exactly when the lower-cased first letter is a, n, v or r, and it is the part of speech with that key. |
| Topics.TopicToString | src/main/java/de/uhd/ifi/se/accompleteness/model/Topic.java:34-37 | The printed form is the topic text: a topic built from it with the one-argument constructor equals the original. |
| Topics.TopicEquals | src/main/java/de/uhd/ifi/se/accompleteness/model/Topic.java:39-46 | A topic equals exactly the topic values with the same text, whatever their tag. |
| Topics.RelationshipEquals | src/main/java/de/uhd/ifi/se/accompleteness/model/Relationship.java:14-21 | A relationship equals exactly the relationship values whose left and right topics have its texts, whatever their tags and relation. |
| Topics.PosTagRoundTrip | src/main/java/de/uhd/ifi/se/accompleteness/model/Topic.java:23-32 | A tag that starts with the key of a part of speech, in either case, reads back as that part of speech whatever follows. |
| Topics.PosTagExamples | src/main/java/de/uhd/ifi/se/accompleteness/model/Topic.java:23-32 | NOUN, NN, VB and RB resolve. JJ and IN do not resolve, because the key of JJ is not a. The one-argument constructor's empty tag throws. |
| Topics.TopicEqualsIsSurfaceEquality | src/main/java/de/uhd/ifi/se/accompleteness/model/Topic.java:39-46 | Two topics are equal exactly when their texts are equal. The tag plays no part, and an object that is not a topic is never equal. |
| Topics.TopicEqualsEquivalence | src/main/java/de/uhd/ifi/se/accompleteness/model/Topic.java:39-46 | Topic equality is reflexive, symmetric and transitive. |
| Topics.RelationshipEqualsProperties | src/main/java/de/uhd/ifi/se/accompleteness/model/Relationship.java:14-21 | Two relationships are equal exactly when their left topics are equal and their right topics are equal. The relation text is ignored. A relationship with its sides swapped is equal only when both sides have the same text. |
| NaiveCalculator.FoundCount | src/main/java/de/uhd/ifi/se/accompleteness/calculation/naive/NaiveCompletenessCalculator.java:20-31 | Each story topic counts at most once, so the count never exceeds the number of story topics. |
| NaiveCalculator.FoundCountSnoc | src/main/java/de/uhd/ifi/se/accompleteness/calculation/naive/NaiveCompletenessCalculator.java:20-31 | One more story topic adds one to the count exactly when some criteria topic equals it. |
| NaiveCalculator.FoundCountMonotone | src/main/java/de/uhd/ifi/se/accompleteness/calculation/naive/NaiveCompletenessCalculator.java:22-26 | One more criteria topic never lowers the count. |
| NaiveCalculator.Completeness | src/main/java/de/uhd/ifi/se/accompleteness/calculation/naive/NaiveCompletenessCalculator.java:32 | The quotient is NaN exactly when there are no story topics. Otherwise it lies between 0 and 1. |
| NaiveCalculator.CalculateCompleteness | src/main/java/de/uhd/ifi/se/accompleteness/calculation/naive/NaiveCompletenessCalculator.java:16-34 | The two nested loops compute the found count over all topics. The result carries the quotient, both topic lists unchanged and an empty matched map. |
| NaiveCalculator.CompletenessMonotone | src/main/java/de/uhd/ifi/se/accompleteness/calculation/naive/NaiveCompletenessCalculator.java:32 | One more criteria topic never lowers completeness. |
| NaiveCalculator.AllFound | src/main/java/de/uhd/ifi/se/accompleteness/calculation/naive/NaiveCompletenessCalculator.java:20-32 | When every story topic is matched, the count is the number of story topics and completeness is 1. |
| NaiveCalculator.TestScenarios | src/main/java/de/uhd/ifi/se/accompleteness/calculation/naive/NaiveCompletenessCalculator.java:16-34 | Covers the three scenarios of the calculator tests: mouse/mouse gives 1, mouse/house gives 0, and {mouse, worker}/{house, worker} gives 0.5. |
| NaiveCalculator.EmptySourcesAreNaN | src/main/java/de/uhd/ifi/se/accompleteness/calculation/naive/NaiveCompletenessCalculator.java:32 | No story topics gives 0/0, which is NaN (see Findings). |
| NaiveCalculator.GuardedCompleteness | src/main/java/de/uhd/ifi/se/accompleteness/calculation/naive/NaiveCompletenessCalculator.java:32 | The guarded quotient always lies between 0 and 1. It is 0 for no story topics and agrees with the source everywhere else. |
| Criteria.Ordinal | src/main/java/de/uhd/ifi/se/acgen/model/AcceptanceCriterionType.java:8-63 | Gives each type's position in declaration order, the order the enum's `compareTo` uses. |
| Criteria.IsLog | src/main/java/de/uhd/ifi/se/acgen/model/AcceptanceCriterionType.java:135-137 | The log types are exactly the last four declared. |
| Criteria.Keyword | src/main/java/de/uhd/ifi/se/acgen/model/AcceptanceCriterionType.java:14-43 | The keyword is empty exactly for the log types, and otherwise GIVEN, WHEN or THEN. |
| Criteria.Prefix | src/main/java/de/uhd/ifi/se/acgen/model/AcceptanceCriterionType.java:14-63 | A log type's prefix is its severity and ": ". Among the Gherkin types only the UI type has one. |
| Criteria.Suffix | src/main/java/de/uhd/ifi/se/acgen/model/AcceptanceCriterionType.java:14-63 | Only the role type has a suffix. |
| Criteria.NewCriterion | src/main/java/de/uhd/ifi/se/acgen/model/AcceptanceCriterion.java:47-52 | The two-argument constructor keeps the text and type and sets both replacement indices to -1. |
| Criteria.CompareTo | src/main/java/de/uhd/ifi/se/acgen/model/AcceptanceCriterion.java:146-148 | The result is an `int`. Different types are never equal and order by declaration. Within one type the sign follows the begin positions when their difference fits an `int`. |
| Criteria.DeclarationOrder | src/main/java/de/uhd/ifi/se/acgen/model/AcceptanceCriterionType.java:8-63 | The ordinal is a bijection between the ten types and the positions 0 to 9. |
| Criteria.LogTypes | src/main/java/de/uhd/ifi/se/acgen/model/AcceptanceCriterionType.java:45-137 | A type is a log type exactly when its keyword is empty, and exactly when it is one of the last four declared. Its prefix is then its severity followed by ": ". |
| Criteria.GherkinKeywords | src/main/java/de/uhd/ifi/se/acgen/model/AcceptanceCriterionType.java:14-43 | ROLE and UI take GIVEN, the two action types take WHEN, and the two result types take THEN. |
| Criteria.FixedTexts | src/main/java/de/uhd/ifi/se/acgen/model/AcceptanceCriterionType.java:14-63 | Only ROLE has a suffix. Among the Gherkin types, only UI has a prefix. |
| Criteria.ToString | src/main/java/de/uhd/ifi/se/acgen/model/AcceptanceCriterion.java:134-136 | The rendering is as long as the lead, the words and the suffix together, and holds the words right after the lead. |
| Criteria.ToStringRoundTrip | src/main/java/de/uhd/ifi/se/acgen/model/AcceptanceCriterion.java:134-136 | The rendering starts with the keyword and ends with the suffix. The raw words can be read back from between the lead and the suffix. |
| Criteria.RoleExample | src/test/java/de/uhd/ifi/se/acgen/model/TestAcceptanceCriterion.java:13-19 | "a developer" as a role renders as "GIVEN a developer is using the software". |
| Criteria.ActionExample | src/test/java/de/uhd/ifi/se/acgen/model/TestAcceptanceCriterion.java:35-40 | An action renders as "WHEN" and its words. |
| Criteria.ReasonResultExample | src/test/java/de/uhd/ifi/se/acgen/model/TestAcceptanceCriterion.java:54-58 | A result derived from the reason renders as "THEN" and its words. |
| Criteria.LogExample | src/test/java/de/uhd/ifi/se/acgen/model/TestAcceptanceCriterion.java:86-90 | A debug message renders as "DEBUG: " and its words, with no space after the empty keyword. |
| Criteria.CompareToSigns | src/main/java/de/uhd/ifi/se/acgen/model/AcceptanceCriterion.java:146-148 | Holds when the begin differences fit in an `int`. The comparison is antisymmetric in sign. It is 0 exactly for equal types and begins. Different types order by declaration. |
| Criteria.CompareToExamples | src/test/java/de/uhd/ifi/se/acgen/model/TestAcceptanceCriterion.java:60-63 | The test orderings hold: an action comes before a result, an earlier action before a later one, a story action before a reason action, a reason action before a reason result, and the log types in severity order (lines 92-94). |
| Criteria.CompareToWrapExample | src/main/java/de/uhd/ifi/se/acgen/model/AcceptanceCriterion.java:147 | The begin difference wraps at 32 bits, so `Integer.MIN_VALUE` and 0 each compare below the other. |
| GeneratorResponse.CountOf | src/main/java/de/uhd/ifi/se/acgen/model/UvlResponse.java:77-85 | Returns -1 exactly when the story has no list, and the list's length otherwise. |
| GeneratorResponse.Index | src/main/java/de/uhd/ifi/se/acgen/model/UvlResponse.java:110 | `(usNumber << 16) + count` is always a 32-bit value. |
| GeneratorResponse.AddCriterion | src/main/java/de/uhd/ifi/se/acgen/model/UvlResponse.java:95-122 | The rendering is stored under the story's next index, and the story's list gains one link of strength 1 to it. A story without a list gets one. No other criterion, story list or metric changes. |
| GeneratorResponse.AddMetric | src/main/java/de/uhd/ifi/se/acgen/model/UvlResponse.java:131-133 | Sets or replaces one metric and leaves everything else alone. |
| GeneratorResponse.NumberKeyed | src/main/java/de/uhd/ifi/se/acgen/model/UvlResponse.java:113 | The JSON object's keys are exactly the decimal forms of the indices, and each key holds its entry. |
| GeneratorResponse.ToJson | src/main/java/de/uhd/ifi/se/acgen/model/UvlResponse.java:50-56 | The object has exactly the keys "topics", "doc_topic" and "metrics", and the metrics are rendered one for one. |
| GeneratorResponse.IndexDecodes | src/main/java/de/uhd/ifi/se/acgen/model/UvlResponse.java:107-110 | For stories below 2^15 and counts below 2^16, the index is exact. Shifting it right by 16 gives back the story, and its low 16 bits give back the count. |
| GeneratorResponse.IndexInjective | src/main/java/de/uhd/ifi/se/acgen/model/UvlResponse.java:107-110 | In that range, different (story, count) pairs get different indices. |
| GeneratorResponse.IndexOverflowExample | src/main/java/de/uhd/ifi/se/acgen/model/UvlResponse.java:110 | Out of range the encoding breaks: story 2^15 gets `Integer.MIN_VALUE`, and story 2^16 shares index 0 with story 0. |
| GeneratorResponse.EmptyConsistent | src/main/java/de/uhd/ifi/se/acgen/model/UvlResponse.java:34-38 | The new response is consistent. |
| GeneratorResponse.AddKeepsConsistent | src/main/java/de/uhd/ifi/se/acgen/model/UvlResponse.java:95-122 | An add keeps the response consistent: every link points at the index of its position, and every criterion is linked. |
| GeneratorResponse.AddKeepsLinks | src/main/java/de/uhd/ifi/se/acgen/model/UvlResponse.java:110-121 | After an add, every link still carries its position's index and strength 1, and that index holds a criterion. |
| GeneratorResponse.AddKeepsLinked | src/main/java/de/uhd/ifi/se/acgen/model/UvlResponse.java:113-121 | After an add, every stored criterion is still the target of some link. |
| GeneratorResponse.AddIsFresh | src/main/java/de/uhd/ifi/se/acgen/model/UvlResponse.java:110-113 | In range, the new index is not yet a key, so an add never overwrites a criterion. |
| GeneratorResponse.AddCounts | src/main/java/de/uhd/ifi/se/acgen/model/UvlResponse.java:95-122 | In range, an add grows the criteria by exactly one and the story's count by exactly one. |
| GeneratorResponse.JsonReadBack | src/main/java/de/uhd/ifi/se/acgen/model/UvlResponse.java:50-56 | Every stored criterion is found under the decimal form of its index, and every key parses back to a stored index. |
| GeneratorResponse.TwoAddsExample | src/main/java/de/uhd/ifi/se/acgen/model/UvlResponse.java:95-122 | Two criteria for story 1 get the indices 65536 and 65537, in that order. |
| SharedUtils.ThirdPerson | src/main/java/de/uhd/ifi/se/acgen/generator/gherkin/util/SharedUtils.java:90-115 | Fails, with the index exception of `charAt(-1)`, exactly for a verb that is a single y of either case. Every other verb's third-person form ends in s. |
| SharedUtils.IrregularVerbs | src/main/java/de/uhd/ifi/se/acgen/generator/gherkin/util/SharedUtils.java:92-100 | Covers the irregular table: am and be become is, have becomes has, do becomes does, and go becomes goes. |
| SharedUtils.EsIff | src/main/java/de/uhd/ifi/se/acgen/generator/gherkin/util/SharedUtils.java:103-105 | A regular verb takes "-es" exactly when it ends, ignoring case, in x, ss, ch or sh. |
| SharedUtils.SibilantIsLowerSuffix | src/main/java/de/uhd/ifi/se/acgen/generator/gherkin/util/SharedUtils.java:103 | The ending test reads the last letters of the lower-cased verb, as the four `endsWith` calls on `toLowerCase()` do. |
| SharedUtils.RegularKeepsStem | src/main/java/de/uhd/ifi/se/acgen/generator/gherkin/util/SharedUtils.java:102-114 | A regular verb grows by one or two letters. It keeps all letters but possibly the last, and it loses the last exactly in the "-ies" case. |
| SharedUtils.WantExample | src/main/java/de/uhd/ifi/se/acgen/generator/gherkin/util/SharedUtils.java:48 | "want" becomes "wants", the form the verb search expects in the third person. |
| SharedUtils.RegularExamples | src/main/java/de/uhd/ifi/se/acgen/generator/gherkin/util/SharedUtils.java:102-114 | Examples: fix becomes fixes, pass passes, try tries, play plays, and sAy becomes sAies because the vowel test is case-sensitive. A lone y fails. |
| SharedUtils.StarterOrder | src/main/java/de/uhd/ifi/se/acgen/generator/gherkin/util/SharedUtils.java:19 | The conditional starters are the six given words, in that order, without repeats. |
| SharedUtils.StartersNonEmpty | src/main/java/de/uhd/ifi/se/acgen/generator/gherkin/util/SharedUtils.java:19 | No conditional starter is empty. |
| Postprocessing.FirstStarter | src/main/java/de/uhd/ifi/se/acgen/generator/gherkin/util/PostprocessingUtils.java:45-57 | Finds the first starter, in list order, that the text ends with, and none when no starter fits. |
| Postprocessing.TextBefore | src/main/java/de/uhd/ifi/se/acgen/generator/gherkin/util/PostprocessingUtils.java:39-44 | The text before the first occurrence of the other criterion's words, without trailing spaces. It is a prefix of the criterion, no longer than that occurrence's index, and does not end in a space. |
| Postprocessing.CutBy | src/main/java/de/uhd/ifi/se/acgen/generator/gherkin/util/PostprocessingUtils.java:31-64 | The criterion changes exactly when the two criteria overlap and the text before ends in a starter. It then becomes the cut before the first such starter. |
| Postprocessing.Cut | src/main/java/de/uhd/ifi/se/acgen/generator/gherkin/util/PostprocessingUtils.java:31-64 | The cut happens exactly under that condition. It keeps the type and begin and sets the end to `other.begin - 1` in 32-bit arithmetic. The cut words are a strictly shorter prefix without a trailing space. |
| Postprocessing.CutBefore | src/main/java/de/uhd/ifi/se/acgen/generator/gherkin/util/PostprocessingUtils.java:49-55 | The cut before the starter keeps the type and begin and ends one before the other's begin. Its words are a prefix of the text before, and of the criterion. |
| Postprocessing.BeforeStarter | src/main/java/de/uhd/ifi/se/acgen/generator/gherkin/util/PostprocessingUtils.java:49-54 | Cutting at the `lastIndexOf` of a starter the text ends with removes exactly that suffix and then the trailing spaces. |
| Postprocessing.CutOffAtNextCriterion | src/main/java/de/uhd/ifi/se/acgen/generator/gherkin/util/PostprocessingUtils.java:31-64 | The source's cut, where the starter is a plain suffix, happens exactly when the criteria overlap and the text before ends in a starter. |
| Postprocessing.CutRemovesOther | src/main/java/de/uhd/ifi/se/acgen/generator/gherkin/util/PostprocessingUtils.java:31-64 | A cut criterion overlapped the other. It keeps a prefix of the text before, and no longer contains the other criterion's words. |
| Postprocessing.MotifExample | src/main/java/de/uhd/ifi/se/acgen/generator/gherkin/util/PostprocessingUtils.java:45-55 | "x motif y" cut before "y" loses the "if" of "motif" and becomes "x mot", while the whole-word cut leaves it alone (see Findings). |
| Postprocessing.CorrectedCutOff | src/main/java/de/uhd/ifi/se/acgen/generator/gherkin/util/PostprocessingUtils.java:45-57 | The corrected cut happens exactly when the criteria overlap and the text before ends in a starter that is a whole word. |
| Postprocessing.CorrectedCutAtWord | src/main/java/de/uhd/ifi/se/acgen/generator/gherkin/util/PostprocessingUtils.java:45-57 | Whenever the corrected cut changes a criterion, a starter is a whole word at the end of the text before. |
| Postprocessing.CutVersionsAgree | src/main/java/de/uhd/ifi/se/acgen/generator/gherkin/util/PostprocessingUtils.java:45-57 | Both cuts agree whenever the plain and whole-word tests agree on every starter. |
| Postprocessing.SameStarter | src/main/java/de/uhd/ifi/se/acgen/generator/gherkin/util/PostprocessingUtils.java:45-46 | For any starter list, the plain search and the whole-word search pick the same starter when they agree on each one. |
| Postprocessing.ReplaceUIDescription | src/main/java/de/uhd/ifi/se/acgen/generator/gherkin/util/PostprocessingUtils.java:76-83 | A null description, or one not contained, leaves the criterion unchanged. Type and replacement indices are always kept. |
| Postprocessing.ReplaceUIKeepsPrefix | src/main/java/de/uhd/ifi/se/acgen/generator/gherkin/util/PostprocessingUtils.java:80 | With the description present, the words before its first occurrence are kept and the fixed phrase follows them. |
| Postprocessing.ReplaceUIIdempotentOnPhrase | src/main/java/de/uhd/ifi/se/acgen/generator/gherkin/util/PostprocessingUtils.java:80 | Replacing "the active user interface" by itself changes nothing. |
| ResultUtils.StripTrailingJunk | src/main/java/de/uhd/ifi/se/acgen/generator/gherkin/util/ResultUtils.java:241-243 | The result is a prefix of the input, every character dropped is a comma, space or hyphen, and the result does not end in one. |
| ResultUtils.Sanitize | src/main/java/de/uhd/ifi/se/acgen/generator/gherkin/util/ResultUtils.java:227-245 | The cleaned text has no two spaces in a row, no whitespace other than plain spaces, no leading whitespace, and no trailing comma, space or hyphen. |
| ResultUtils.SanitizeKeepsWords | src/main/java/de/uhd/ifi/se/acgen/generator/gherkin/util/ResultUtils.java:227-245 | Apart from whitespace, the cleaned text is the text after the " , " pass, less a trailing run of commas and hyphens. |
| ResultUtils.InfixKeepsSpacing | src/main/java/de/uhd/ifi/se/acgen/generator/gherkin/util/ResultUtils.java:235-243 | Any piece of a singly, plainly spaced text is itself singly and plainly spaced, so trimming either end keeps the spacing guarantee. |
| ResultUtils.SanitizeAfterPass | src/main/java/de/uhd/ifi/se/acgen/generator/gherkin/util/ResultUtils.java:227-245 | When the " , " pass already leaves a clean text, the later steps change nothing. |
| ResultUtils.SanitizeIdentity | src/main/java/de/uhd/ifi/se/acgen/generator/gherkin/util/ResultUtils.java:227-245 | A clean text without " , " is its own clean-up. |
| ResultUtils.SanitizeCommaExample | src/main/java/de/uhd/ifi/se/acgen/generator/gherkin/util/ResultUtils.java:230 | "a , , b" cleans to "a , b", because the single regex pass resumes after each match. A second clean-up gives "a b", so the clean-up is not idempotent. |
| ResultUtils.SanitizeKeepsPeriod | src/main/java/de/uhd/ifi/se/acgen/generator/gherkin/util/ResultUtils.java:240-243 | A final period survives the clean-up, although the comment says periods are removed. |
| ResultUtils.InfinitiveToWord | src/main/java/de/uhd/ifi/se/acgen/generator/gherkin/util/ResultUtils.java:183-193 | Returns the 1-based index of the first VB tag right after a TO tag, and none exactly when no such pair exists. |
| ResultUtils.InfinitiveToWordWithAdverb | src/main/java/de/uhd/ifi/se/acgen/generator/gherkin/util/ResultUtils.java:206-217 | Returns the 1-based index of the first TO, RB, VB run's verb, and none exactly when no such run exists. |
| ResultUtils.ChildIsPluralNoun | src/main/java/de/uhd/ifi/se/acgen/generator/gherkin/util/ResultUtils.java:162-172 | True exactly when some child of the verb is tagged NN...S, is not "details" in any case, and comes after the verb. |
| Preprocessing.PronounReplacement | src/main/java/de/uhd/ifi/se/acgen/generator/gherkin/util/PreprocessingUtils.java:66-79 | Ignoring case, only I, me, my, mine and myself have a replacement, and exactly I and me become "the user". |
| Preprocessing.PronounExamples | src/main/java/de/uhd/ifi/se/acgen/generator/gherkin/util/PreprocessingUtils.java:66-79 | On examples: I and Me become "the user", MY and mine the possessive with U+2019, Myself "themself", and "you" has no entry. |
| Preprocessing.FirstChildIn | src/main/java/de/uhd/ifi/se/acgen/generator/gherkin/util/PreprocessingUtils.java:171-177 | Scanning the children in order gives the first one whose relation starts with the name and whose tag matches, or none exactly when no child qualifies. |
| Preprocessing.FirstChildWithRelationAndTag | src/main/java/de/uhd/ifi/se/acgen/generator/gherkin/util/PreprocessingUtils.java:170-178 | Gives the least-index child with the relation prefix and tag, and null (none) exactly when there is no such child. |
| Preprocessing.VerbEntry | src/main/java/de/uhd/ifi/se/acgen/generator/gherkin/util/PreprocessingUtils.java:102 | One entry, keyed by the verb, holding the verb's third-person form. It fails exactly when that form throws. |
| Preprocessing.VerbOfHead | src/main/java/de/uhd/ifi/se/acgen/generator/gherkin/util/PreprocessingUtils.java:100-119 | A VBP head is its own verb. Otherwise the verb is a VBP child of the head: by "cop" under a JJ or NN head, by "aux" under a VB or VBN head, and none under any other tag. |
| Preprocessing.AddSToVerbOfSubject | src/main/java/de/uhd/ifi/se/acgen/generator/gherkin/util/PreprocessingUtils.java:95-121 | A subject that is not a token fails as a missing node, and a root subject fails because it has no parent. Otherwise every entry is the verb of the subject's head, holding that verb's third-person form. |
| Preprocessing.VerbFix | src/main/java/de/uhd/ifi/se/acgen/generator/gherkin/util/PreprocessingUtils.java:100-120 | Every entry is the head's verb with its third-person form, and the only possible failure is the index error of the verb conjugation. |
| Preprocessing.VerbFixAtMostOne | src/main/java/de/uhd/ifi/se/acgen/generator/gherkin/util/PreprocessingUtils.java:95-121 | The verb fix has at most one entry. |
| Preprocessing.HandleMentions | src/main/java/de/uhd/ifi/se/acgen/generator/gherkin/util/PreprocessingUtils.java:62-80 | Entries already present stay keys, and a missing-node failure names a mention that is not a token. |
| Preprocessing.HandleMentionsKeys | src/main/java/de/uhd/ifi/se/acgen/generator/gherkin/util/PreprocessingUtils.java:62-80 | Every key is an earlier key, a mention, or the verb fixed for an "I" mention: nothing else is rewritten. |
| Preprocessing.HandleMentionsCovers | src/main/java/de/uhd/ifi/se/acgen/generator/gherkin/util/PreprocessingUtils.java:62-80 | Every mention that is a known pronoun gets an entry. |
| Preprocessing.HandleIStep | src/main/java/de/uhd/ifi/se/acgen/generator/gherkin/util/PreprocessingUtils.java:66-70 | An "I" mention puts "the user" and then the whole verb fix on top, or passes the verb fix's exception on. |
| Preprocessing.SwitchSubjectI | src/main/java/de/uhd/ifi/se/acgen/generator/gherkin/util/PreprocessingUtils.java:56-70 | A subject "I" without coreferences gives exactly "the user" at the subject plus the verb fix, or the verb fix's exception. |
| Preprocessing.MentionKeysAreNodes | src/main/java/de/uhd/ifi/se/acgen/generator/gherkin/util/PreprocessingUtils.java:62-80 | Every key added while handling the mentions is a token of the sentence. |
| Preprocessing.HandleWithoutI | src/main/java/de/uhd/ifi/se/acgen/generator/gherkin/util/PreprocessingUtils.java:62-80 | Without an "I" among the mentions, the keys are exactly the earlier ones plus the pronoun mentions, each with its table replacement. Earlier keys that are not mentions keep their value. |
| Preprocessing.SwitchToThirdPerson | src/main/java/de/uhd/ifi/se/acgen/generator/gherkin/util/PreprocessingUtils.java:46-82 | Every key is a token. Without coreferences the subject alone is handled. The keys are the handled mentions and the verbs their "I"s fix, nothing else, and every handled pronoun is a key. |
| Preprocessing.SwitchWithoutI | src/main/java/de/uhd/ifi/se/acgen/generator/gherkin/util/PreprocessingUtils.java:57-80 | When there are coreferences and none is "I", the replacements are exactly the pronoun mentions with their table values, and no verb is touched. |
| Preprocessing.SwitchExample | src/main/java/de/uhd/ifi/se/acgen/generator/gherkin/util/PreprocessingUtils.java:46-82 | "I want" with "I" as the subject of "want" gives "the user" at 1 and "wants" at 2. |
| Preprocessing.SpliceToken | src/main/java/de/uhd/ifi/se/acgen/generator/gherkin/util/PreprocessingUtils.java:241 | The splice succeeds exactly when both character positions lie within the text. It then begins with the text before the token followed by the replacement, and ends with the text after the token. |
| Preprocessing.ReplaceWordsInSentence | src/main/java/de/uhd/ifi/se/acgen/generator/gherkin/util/PreprocessingUtils.java:225-244 | No replacements leave the text unchanged, and a key that is not a token makes it fail. |
| Preprocessing.ReplaceStep | src/main/java/de/uhd/ifi/se/acgen/generator/gherkin/util/PreprocessingUtils.java:232-241 | The largest key is spliced first, and the rest is applied to the spliced text. |
| Preprocessing.ReplaceInPrefix | src/main/java/de/uhd/ifi/se/acgen/generator/gherkin/util/PreprocessingUtils.java:225-244 | When every replaced token lies inside a prefix, the text after the prefix comes through unchanged. |
| Preprocessing.DescendingIsLeftToRight | src/main/java/de/uhd/ifi/se/acgen/generator/gherkin/util/PreprocessingUtils.java:229-242 | When the spans follow token order and do not overlap, replacing from the largest index down equals the left-to-right reference splice. No replacement moves a position still to come. |
| Preprocessing.ReplaceExample | src/main/java/de/uhd/ifi/se/acgen/generator/gherkin/util/PreprocessingUtils.java:225-244 | "I want" with the replacements above becomes "the user wants". |
| UIPrecondition.IndexOfFrom | src/main/java/de/uhd/ifi/se/acgen/generator/gherkin/util/UIPreconditionUtils.java:83-90 | The offset of the first occurrence at or after the start. It is -1 exactly when there is none, and nothing before the offset matches. |
| UIPrecondition.Scan | src/main/java/de/uhd/ifi/se/acgen/generator/gherkin/util/UIPreconditionUtils.java:40-120 | Any end returned lies between -1 and the token count. Any failure is an index-out-of-bounds or a null-pointer exception. |
| UIPrecondition.Rest | src/main/java/de/uhd/ifi/se/acgen/generator/gherkin/util/UIPreconditionUtils.java:73-118 | The same bounds and failure kinds for the exception branches after the prepositions. |
| UIPrecondition.EndIndexOfUI | src/main/java/de/uhd/ifi/se/acgen/generator/gherkin/util/UIPreconditionUtils.java:32-122 | The same bounds and failure kinds for the whole method. |
| UIPrecondition.ScanSkips | src/main/java/de/uhd/ifi/se/acgen/generator/gherkin/util/UIPreconditionUtils.java:41-45 | Tokens before the end found so far are skipped unread. |
| UIPrecondition.ScanContinues | src/main/java/de/uhd/ifi/se/acgen/generator/gherkin/util/UIPreconditionUtils.java:46 | A run of tokens that are UI-tagged, nouns, commas or hyphens changes nothing. |
| UIPrecondition.NegativeBegin | src/main/java/de/uhd/ifi/se/acgen/generator/gherkin/util/UIPreconditionUtils.java:40 | A negative first index behaves like index 0. |
| UIPrecondition.AllExtendMeansZero | src/main/java/de/uhd/ifi/se/acgen/generator/gherkin/util/UIPreconditionUtils.java:36-46 | When every token from the first word on extends the description, the result is the initial 0 whatever the length. |
| UIPrecondition.FirstPlainStop | src/main/java/de/uhd/ifi/se/acgen/generator/gherkin/util/UIPreconditionUtils.java:46-52 | The description ends just before the first token that neither extends it nor opens an exception. |
| UIPrecondition.PrepositionStep | src/main/java/de/uhd/ifi/se/acgen/generator/gherkin/util/UIPreconditionUtils.java:53-72 | For under, of or for: a root preposition throws a null pointer. "for" before a VBG under a noun head ends the description before it. Otherwise the end moves to the noun head. |
| UIPrecondition.InStep | src/main/java/de/uhd/ifi/se/acgen/generator/gherkin/util/UIPreconditionUtils.java:73-82 | "in" before a UI word, a "list" or "CoMET" takes two more tokens. |
| UIPrecondition.InAtEndFails | src/main/java/de/uhd/ifi/se/acgen/generator/gherkin/util/UIPreconditionUtils.java:73 | "in" as the last token reads past the end of the lists and throws. |
| UIPrecondition.QuoteStep | src/main/java/de/uhd/ifi/se/acgen/generator/gherkin/util/UIPreconditionUtils.java:83-90 | An opening quote takes everything up to its first closing quote and one token more. |
| UIPrecondition.DoubleQuoteStep | src/main/java/de/uhd/ifi/se/acgen/generator/gherkin/util/UIPreconditionUtils.java:99-106 | A '"' token with another one later takes everything up to that next one and one token more. |
| UIPrecondition.EtStep | src/main/java/de/uhd/ifi/se/acgen/generator/gherkin/util/UIPreconditionUtils.java:91-98 | "(" "ET" ")" takes the three tokens and the one after them. |
| UIPrecondition.ArrowStep | src/main/java/de/uhd/ifi/se/acgen/generator/gherkin/util/UIPreconditionUtils.java:107-113 | The ">" of "->" takes the next token. |
| UIPrecondition.CoMETExample | src/main/java/de/uhd/ifi/se/acgen/generator/gherkin/util/UIPreconditionUtils.java:73-82 | From "event" in "the event cockpit in CoMET .", the description ends at "CoMET". Without the final period, the lookahead two words past "in" throws. |
| ActionUtils.IsAsSoonAs | src/main/java/de/uhd/ifi/se/acgen/generator/gherkin/util/ActionUtils.java:39-41 | True exactly when the three words ending at the index read "as soon as" in any case. A missing node fails only when every word above it matched, because the conjunction short-circuits. |
| ActionUtils.AsSoonAsExample | src/main/java/de/uhd/ifi/se/acgen/generator/gherkin/util/ActionUtils.java:39-41 | On "as soon as it ...": true at the second "as", false one word later, and a missing node before the sentence or past its end. |
| ActionUtils.DurationStart | src/main/java/de/uhd/ifi/se/acgen/generator/gherkin/util/ActionUtils.java:171-178 | Walks left over DURATION tags to the first word of the run, whose left neighbour is not DURATION. It throws exactly when the run reaches the sentence start. |
| ActionUtils.BeginIndexOfDuration | src/main/java/de/uhd/ifi/se/acgen/generator/gherkin/util/ActionUtils.java:171-178 | The same, in the 1-based indices of the conditional starter word. |
| ActionUtils.DurationExample | src/main/java/de/uhd/ifi/se/acgen/generator/gherkin/util/ActionUtils.java:171-178 | A run of two DURATION tags after an "O" starts at index 1. A run from the first word throws. |
| ActionUtils.VerbInAction | src/main/java/de/uhd/ifi/se/acgen/generator/gherkin/util/ActionUtils.java:193-205 | True exactly when some action word has a VB tag, or the action ends with the cut-off mark, or the root is tagged NN...S. |
| ActionUtils.FirstBreak | src/main/java/de/uhd/ifi/se/acgen/generator/gherkin/util/ActionUtils.java:232-247 | The first action word at depth 0 that is a comma or a "that" preposition, with no break before it. |
| ActionUtils.ScanActionWords | src/main/java/de/uhd/ifi/se/acgen/generator/gherkin/util/ActionUtils.java:231-247 | The loop stops at the first break and carries the parenthesis depth reached there. |
| ActionUtils.FirstBreakIsFirst | src/main/java/de/uhd/ifi/se/acgen/generator/gherkin/util/ActionUtils.java:232-247 | Any position with a break and none before it is the first break. |
| ActionUtils.ClauseEnd | src/main/java/de/uhd/ifi/se/acgen/generator/gherkin/util/ActionUtils.java:222-247 | The clause end is at most the last action word, at most the word before "so that" when the action is in the goal, and at most the word before the first break. It is one of these three. |
| ActionUtils.Closings | src/main/java/de/uhd/ifi/se/acgen/generator/gherkin/util/ActionUtils.java:256-262 | Counts closing parentheses in a range, never more than the range holds. |
| ActionUtils.CloseParens | src/main/java/de/uhd/ifi/se/acgen/generator/gherkin/util/ActionUtils.java:252-263 | A negative end throws. Otherwise an opening parenthesis right after the end joins the action, and the end stops at the first tag that closes the last open parenthesis, or at the end of the sentence. |
| ActionUtils.ParensClosedUnique | src/main/java/de/uhd/ifi/se/acgen/generator/gherkin/util/ActionUtils.java:252-263 | The stopping rule admits one end only, so it determines the result. |
| ActionUtils.DetermineActionEndIndex | src/main/java/de/uhd/ifi/se/acgen/generator/gherkin/util/ActionUtils.java:220-264 | An empty word list or a negative clause end throws. Otherwise the end starts at the clause end with the depth reached at the first break, and stops where the parentheses close, as in `CloseParens`. |
| ActionUtils.FirstBeginAtOrAfter | src/main/java/de/uhd/ifi/se/acgen/generator/gherkin/util/ActionUtils.java:386-398 | The least index of a token beginning at or after the position, or Integer.MAX_VALUE when there is none. |
| ActionUtils.LastEndAtOrBefore | src/main/java/de/uhd/ifi/se/acgen/generator/gherkin/util/ActionUtils.java:386-404 | The greatest index of a token ending at or before the position, or 0 when there is none. |
| ActionUtils.IndexFromPosition | src/main/java/de/uhd/ifi/se/acgen/generator/gherkin/util/ActionUtils.java:386-409 | For a begin position, the first word beginning at or after it, or `Integer.MAX_VALUE`. For an end position, the last word ending at or before it, or 0. |
| ActionUtils.InteractionEnd | src/main/java/de/uhd/ifi/se/acgen/generator/gherkin/util/ActionUtils.java:331-347 | -1 exactly when neither " to " nor " and " follows the clicked thing. Otherwise it is the first of the two, whichever comes first. |
| ActionUtils.ExtractActionFromInteraction | src/main/java/de/uhd/ifi/se/acgen/generator/gherkin/util/ActionUtils.java:321-370 | At most one criterion, and exactly one when the lower-cased text holds "to click" and an end is found. It is an action reading "the user clicks " and the clicked span, with only trailing commas removed, indexed by the position lookups. |
| ActionUtils.ClickCriterion | src/main/java/de/uhd/ifi/se/acgen/generator/gherkin/util/ActionUtils.java:351-367 | The text after "the user clicks " is the clicked span with exactly its trailing commas removed: a prefix of the span, not ending in a comma, followed in the span only by commas. |
| ActionUtils.ClickExample | src/main/java/de/uhd/ifi/se/acgen/generator/gherkin/util/ActionUtils.java:321-370 | "to click it, and go" gives "the user clicks it" over words 2 to 5. |
| UserStories.DotRun | src/main/java/de/uhd/ifi/se/accompleteness/model/UserStory.java:71 | The length of the leading run of periods. |
| UserStories.ReplaceDotRuns | src/main/java/de/uhd/ifi/se/accompleteness/model/UserStory.java:69-71 | After the replacement no three periods are adjacent, and apart from periods and ellipses the text is unchanged. A leading run of three or more periods is gone, a shorter run stays, and the text never grows. |
| UserStories.ReplaceDotRunsConcat | src/main/java/de/uhd/ifi/se/accompleteness/model/UserStory.java:71 | Texts joined where no run of periods spans the seam are replaced piece by piece. |
| UserStories.DotRunsToEllipsis | src/main/java/de/uhd/ifi/se/accompleteness/model/UserStory.java:71 | A run of three or more periods becomes one ellipsis. |
| UserStories.ReplaceDotRunsIdentity | src/main/java/de/uhd/ifi/se/accompleteness/model/UserStory.java:71 | Text without three adjacent periods is left unchanged. |
| UserStories.ScanListOrNote | src/main/java/de/uhd/ifi/se/accompleteness/model/UserStory.java:239-249 | The first list or note marker from the given index on, or the end of the text when there is none. |
| UserStories.IndexOfListOrNote | src/main/java/de/uhd/ifi/se/accompleteness/model/UserStory.java:238-250 | The index is below the length exactly when a line break, spaces, then '*', '-' or two backslashes and a space occur. It is then the first such match. |
| UserStories.EndsWithAnyIff | src/main/java/de/uhd/ifi/se/accompleteness/model/UserStory.java:154-164 | The abbreviation loop answers exactly whether the text up to the period ends with one of the abbreviations. |
| UserStories.AbbreviationIsNoSentenceEnd | src/main/java/de/uhd/ifi/se/accompleteness/model/UserStory.java:154-163 | The period closing "e.g." before a space does not end the sentence. |
| UserStories.SentenceEndingExamples | src/main/java/de/uhd/ifi/se/accompleteness/model/UserStory.java:152-178 | A period before a space after an ordinary word ends a sentence, one inside "v1.2" does not, and a final period does. |
| UserStories.IsSentenceEnding | src/main/java/de/uhd/ifi/se/accompleteness/model/UserStory.java:152-178 | With no character after the period, `charAt` throws and the answer is true. Otherwise it is true exactly when whitespace follows and the text up to the period ends with none of the abbreviations. |
| UserStories.DotFrom | src/main/java/de/uhd/ifi/se/accompleteness/model/UserStory.java:195 | The first period from the index on, or -1, with no period before it. |
| UserStories.DotFromIsIndexOf | src/main/java/de/uhd/ifi/se/accompleteness/model/UserStory.java:195 | The character scan equals the substring search for ".". |
| UserStories.FindPeriodWhere | src/main/java/de/uhd/ifi/se/accompleteness/model/UserStory.java:190-212 | The end lies within the text. A period found lies after the start, and without one the end is the text length. |
| UserStories.FindPeriodWhereSpec | src/main/java/de/uhd/ifi/se/accompleteness/model/UserStory.java:190-204 | A period is found exactly when one from the start on passes the test. The search returns one past the first such period. |
| UserStories.FindSentencePeriodFrom | src/main/java/de/uhd/ifi/se/accompleteness/model/UserStory.java:190-212 | The same bounds for the sentence-ending test. |
| UserStories.FindSentencePeriodSpec | src/main/java/de/uhd/ifi/se/accompleteness/model/UserStory.java:190-211 | A sentence period is found exactly when one exists from the start on. The result is one past the first, and otherwise the text length. |
| UserStories.Sanitize | src/main/java/de/uhd/ifi/se/accompleteness/model/UserStory.java:120 | A sanitised part holds no '*', no double space and no whitespace other than plain spaces. Apart from whitespace it is the part without its '*'s. A part starting with a plain character keeps it. |
| UserStories.Kept | src/main/java/de/uhd/ifi/se/accompleteness/model/UserStory.java:93-103 | The kept text is a prefix of the text from "as a" on. |
| UserStories.Assemble | src/main/java/de/uhd/ifi/se/accompleteness/model/UserStory.java:120-141 | Role, goal and reason carry no '*'. The goal is singly and plainly spaced and starts with "I". The role starts with "a". The list flag is the marker. |
| UserStories.IdentifyParts | src/main/java/de/uhd/ifi/se/accompleteness/model/UserStory.java:83-142 | A parsed story had an "as a", and its list flag is set exactly when a list or note follows that "as a". |
| UserStories.RoleErrorIff | src/main/java/de/uhd/ifi/se/accompleteness/model/UserStory.java:84-90 | The role error is raised exactly when no case-insensitive "AS A" occurs. The test is a plain substring search, so "has a" passes it. |
| UserStories.Parse | src/main/java/de/uhd/ifi/se/accompleteness/model/UserStory.java:65-90 | The parser the model uses, with the corrected cut rule. The role error comes exactly when the dot-replaced text holds no case-insensitive "AS A". |
| UserStories.ParseAsWritten | src/main/java/de/uhd/ifi/se/accompleteness/model/UserStory.java:65-90 | The constructor as written. The role error comes exactly when the dot-replaced text holds no case-insensitive "AS A". |
| UserStories.ParseRulesAgree | src/main/java/de/uhd/ifi/se/accompleteness/model/UserStory.java:104-107 | A story that starts with its role parses alike under both cut rules. |
| UserStories.GoalErrorIff | src/main/java/de/uhd/ifi/se/accompleteness/model/UserStory.java:109-115 | The goal error is raised exactly when the kept text has no case-insensitive "I WANT", whichever cut rule is used, because " […]" cannot complete one. |
| UserStories.IdentifyPartsAssembles | src/main/java/de/uhd/ifi/se/accompleteness/model/UserStory.java:83-142 | A successful parse assembles the shortened text at its first "I want", which lies after the role's "a". |
| UserStories.ReasonIff | src/main/java/de/uhd/ifi/se/accompleteness/model/UserStory.java:120-141 | The role is the text before "I want". A reason exists exactly when "so that" follows "I want" no later than the sentence end. Goal and reason are the slices between those points, sanitised. |
| UserStories.WasCutIff | src/main/java/de/uhd/ifi/se/accompleteness/model/UserStory.java:206-210 | The cut flag is set exactly when a list or note was found and no sentence period follows "I want". |
| UserStories.MarkCutIff | src/main/java/de/uhd/ifi/se/accompleteness/model/UserStory.java:104-107 | Under the corrected rule, " […]" is appended exactly when a list or note was cut off. |
| UserStories.MarkCutAsWrittenIff | src/main/java/de/uhd/ifi/se/accompleteness/model/UserStory.java:104-107 | As written, " […]" is also appended when text came before "as a", because the cut index is compared with the uncut input's length. |
| UserStories.MarkCutAsWrittenExample | src/main/java/de/uhd/ifi/se/accompleteness/model/UserStory.java:104-107 | "Hi. As a user, I want x" has no list, yet the parser as written appends " […]". The corrected rule keeps the text from "As a" unchanged. |
| UserStories.UserStoryStringRoundTrip | src/main/java/de/uhd/ifi/se/accompleteness/model/UserStory.java:258-260 | For a clean story starting with "As a", role, goal and reason concatenate to a prefix of the input. They give the whole input when no sentence period follows "I want". |
| UserStories.UserStoryString | src/main/java/de/uhd/ifi/se/accompleteness/model/UserStory.java:258-260 | The story string is the role, the goal and the reason, in order. |
| UserStories.ContainsReason | src/main/java/de/uhd/ifi/se/accompleteness/model/UserStory.java:294-296 | A story has no reason exactly when its string is its role and goal alone. |
| UserStories.AssembleRoundTrip | src/main/java/de/uhd/ifi/se/accompleteness/model/UserStory.java:120-141 | On clean text the assembled parts are consecutive slices up to the sentence end. |
| RestRunner.ExtractSection | src/main/java/de/uhd/ifi/se/accompleteness/rest/RunRest.java:149-161 | The cut succeeds exactly when, after line feeds are deleted, a first marker exists and the next marker starts after its end. The section then holds no line feed and no marker, and stands between two markers in the text. |
| RestRunner.SectionRoundTrip | src/main/java/de/uhd/ifi/se/accompleteness/rest/RunRest.java:149-161 | An input whose text, once its line feeds are deleted, is a lead, a marker, a section, a marker and a trail gives back exactly that section, when no other marker starts before the second one. |
| RestRunner.ExtractUserStoryString | src/main/java/de/uhd/ifi/se/accompleteness/rest/RunRest.java:149-154 | The story is found exactly when the "###" markers bound a section. It holds no marker and stands between two of them. |
| RestRunner.StoryRoundTrip | src/main/java/de/uhd/ifi/se/accompleteness/rest/RunRest.java:149-154 | The story is exactly the text between the first two "###" markers of the input with its line feeds deleted. |
| RestRunner.LineFeedStoryExample | src/main/java/de/uhd/ifi/se/accompleteness/rest/RunRest.java:149-154 | A line feed is deleted before the search: "###a\n###b###" gives the story "a", not "b". |
| RestRunner.ExtractAcceptanceCriteriaString | src/main/java/de/uhd/ifi/se/accompleteness/rest/RunRest.java:156-161 | The same for the "+++" markers of the criteria. |
| RestRunner.CriteriaRoundTrip | src/main/java/de/uhd/ifi/se/accompleteness/rest/RunRest.java:156-161 | The criteria are exactly the text between the first two "+++" markers of the input with its line feeds deleted. |
| RestRunner.SectionHasNoMarker | src/main/java/de/uhd/ifi/se/accompleteness/rest/RunRest.java:151-153 | Between the end of the first marker and the next one there is no marker. |
| RestRunner.StorySectionExample | src/main/java/de/uhd/ifi/se/accompleteness/rest/RunRest.java:149-154 | "###x###+++y+++" gives the story "x". |
| RestRunner.CriteriaSectionExample | src/main/java/de/uhd/ifi/se/accompleteness/rest/RunRest.java:156-161 | The same text gives the criteria "y". |
| RestRunner.DocumentElement | src/main/java/de/uhd/ifi/se/accompleteness/rest/RunRest.java:100-139 | A document whose sections were found yields a score object carrying its own id, or an error object, and never a trailer. |
| RestRunner.ProcessDocument | src/main/java/de/uhd/ifi/se/accompleteness/rest/RunRest.java:95-139 | One document's step fails exactly when a section is missing, because the sections are cut outside the try and abort the request. It never yields a trailer. |
| RestRunner.RespondEach | src/main/java/de/uhd/ifi/se/accompleteness/rest/RunRest.java:92-147 | The first failing document aborts. Otherwise there is one element per document, in input order, then the "errorCount" trailer holding 0. |
| RestRunner.AddAcceptanceCriteriaToResponse | src/main/java/de/uhd/ifi/se/accompleteness/rest/RunRest.java:92-147 | The same for the per-document step above: it fails exactly when some document lacks a section, and the trailer reports 0 errors. |
| RestRunner.ElementsShape | src/main/java/de/uhd/ifi/se/accompleteness/rest/RunRest.java:95-140 | The elements exist exactly when no step fails, one per document in order. |
| RestRunner.ErrorCount | src/main/java/de/uhd/ifi/se/accompleteness/rest/RunRest.java:94 | Zero exactly when no element is an error object, and never more than the elements. |
| RestRunner.CorrectedResponse | src/main/java/de/uhd/ifi/se/accompleteness/rest/RunRest.java:92-147 | The same elements, with a trailer counting the error objects. |
| RestRunner.ErrorObjectExample | src/main/java/de/uhd/ifi/se/accompleteness/rest/RunRest.java:131-138 | A story without "as a" becomes an error object keyed by the role message, with the constructor as written and with the corrected one. |
| RestRunner.CorrectedSingle | src/main/java/de/uhd/ifi/se/accompleteness/rest/RunRest.java:92-147 | For a single document, the corrected trailer counts 1 exactly when its element is an error object. |
| RestRunner.ErrorCountExample | src/main/java/de/uhd/ifi/se/accompleteness/rest/RunRest.java:143-145 | For that document the corrected trailer reports 1 error where the code as written reports 0. |
| UsExtractor.CheckSimThreshold | src/main/java/de/uhd/ifi/se/accompleteness/extractor/openie/OpenIEUSExtractor.java:96-105 | A candidate passes exactly when its similarity to every kept topic is at most the threshold. |
| UsExtractor.AddTopic | src/main/java/de/uhd/ifi/se/accompleteness/extractor/openie/OpenIEUSExtractor.java:63-80 | A candidate is either appended or left out, and nothing else changes. |
| UsExtractor.AddRelationship | src/main/java/de/uhd/ifi/se/accompleteness/extractor/openie/OpenIEUSExtractor.java:81-83 | A relationship is either appended or left out. |
| UsExtractor.CollectTriples | src/main/java/de/uhd/ifi/se/accompleteness/extractor/openie/OpenIEUSExtractor.java:48-86 | The loop over the triples of all sentences yields the in-order fold of the step. |
| UsExtractor.AddTopicInvariant | src/main/java/de/uhd/ifi/se/accompleteness/extractor/openie/OpenIEUSExtractor.java:63-80 | Adding keeps the topic surfaces distinct and keeps every earlier topic. The candidate is present afterwards unless the similarity filter rejected it. Under that filter the kept topics stay pairwise dissimilar. |
| UsExtractor.AddRelationshipInvariant | src/main/java/de/uhd/ifi/se/accompleteness/extractor/openie/OpenIEUSExtractor.java:81-83 | Adding keeps the relationships distinct, contains the new one and keeps every earlier one. |
| UsExtractor.StepGrows | src/main/java/de/uhd/ifi/se/accompleteness/extractor/openie/OpenIEUSExtractor.java:52-85 | One step only appends. |
| UsExtractor.StepCovers | src/main/java/de/uhd/ifi/se/accompleteness/extractor/openie/OpenIEUSExtractor.java:54-83 | A confident triple's relationship is present afterwards. Without the similarity filter, its subject and object are present too. |
| UsExtractor.CollectDistinct | src/main/java/de/uhd/ifi/se/accompleteness/extractor/openie/OpenIEUSExtractor.java:48-86 | After the loop the topic surfaces and the relationships are distinct, and under the similarity filter the topics are pairwise dissimilar. |
| UsExtractor.CollectCovers | src/main/java/de/uhd/ifi/se/accompleteness/extractor/openie/OpenIEUSExtractor.java:48-86 | Every confident triple's relationship ends up in the result. Without the similarity filter, its subject and object do too. |
| UsExtractor.CollectSources | src/main/java/de/uhd/ifi/se/accompleteness/extractor/openie/OpenIEUSExtractor.java:48-86 | Every topic kept is the subject or object of a confident triple. |
| UsExtractor.FilterTopics | src/main/java/de/uhd/ifi/se/accompleteness/extractor/openie/OpenIEUSExtractor.java:127-135 | The exclude-list filter never adds topics. |
| UsExtractor.FilterTopicsKeeps | src/main/java/de/uhd/ifi/se/accompleteness/extractor/openie/OpenIEUSExtractor.java:127-135 | It keeps exactly the topics whose string is not "I". |
| UsExtractor.FilterTopicsAppend | src/main/java/de/uhd/ifi/se/accompleteness/extractor/openie/OpenIEUSExtractor.java:127-135 | It distributes over concatenation, so it keeps the order. |
| UsExtractor.TokenMatches | src/main/java/de/uhd/ifi/se/accompleteness/extractor/openie/OpenIEUSExtractor.java:116-119 | The count of topics equal to a token is at most the number of topics. |
| UsExtractor.Copies | src/main/java/de/uhd/ifi/se/accompleteness/extractor/openie/OpenIEUSExtractor.java:109-123 | A topic is appended at most twice, and at least once when it has fewer tokens than the minimum. |
| UsExtractor.CountTokenMatches | src/main/java/de/uhd/ifi/se/accompleteness/extractor/openie/OpenIEUSExtractor.java:116-119 | The innermost loop computes the count of topics equal to the token. |
| UsExtractor.CountAlreadyFound | src/main/java/de/uhd/ifi/se/accompleteness/extractor/openie/OpenIEUSExtractor.java:114-120 | The two inner loops compute the (token, topic) match count. |
| UsExtractor.TopicCopies | src/main/java/de/uhd/ifi/se/accompleteness/extractor/openie/OpenIEUSExtractor.java:110-122 | One pass of the outer loop appends exactly the topic's copies. |
| UsExtractor.FilterCompositeTopics | src/main/java/de/uhd/ifi/se/accompleteness/extractor/openie/OpenIEUSExtractor.java:107-125 | The loop's result is the reference: every topic repeated by its copy count, in order. |
| UsExtractor.CompositeFilterFrom | src/main/java/de/uhd/ifi/se/accompleteness/extractor/openie/OpenIEUSExtractor.java:107-125 | The composition filter only outputs topics it was given. |
| UsExtractor.CompositeFilterKeeps | src/main/java/de/uhd/ifi/se/accompleteness/extractor/openie/OpenIEUSExtractor.java:107-125 | It keeps every topic that has at least one copy. |
| UsExtractor.PostFilter | src/main/java/de/uhd/ifi/se/accompleteness/extractor/openie/OpenIEUSExtractor.java:87-92 | The exclude filter runs first and the composition filter second, each when its flag is set. |
| UsExtractor.PostFilteredExcludesI | src/main/java/de/uhd/ifi/se/accompleteness/extractor/openie/OpenIEUSExtractor.java:87-92 | With the exclude list on, no "I" topic survives both filters. |
| UsExtractor.CompositeTwiceExample | src/main/java/de/uhd/ifi/se/accompleteness/extractor/openie/OpenIEUSExtractor.java:112-122 | A short topic whose tokens no topic accounts for is appended twice. |
| UsExtractor.CompositeDropExample | src/main/java/de/uhd/ifi/se/accompleteness/extractor/openie/OpenIEUSExtractor.java:112-122 | A long topic whose tokens are all topics is dropped. |
| WordnetCalculator.SortWords | src/main/java/de/uhd/ifi/se/accompleteness/calculation/wordnet/WordnetCompletenessCalculator.java:40-50 | Every word of a topic goes to exactly one pool, and without a part-of-speech tag every word is literal. |
| WordnetCalculator.SortWordsPartition | src/main/java/de/uhd/ifi/se/accompleteness/calculation/wordnet/WordnetCompletenessCalculator.java:40-50 | A word is literal exactly when the dictionary does not know it under the tag. Otherwise the word's first sense is in the sense pool. |
| WordnetCalculator.BuildPools | src/main/java/de/uhd/ifi/se/accompleteness/calculation/wordnet/WordnetCompletenessCalculator.java:37-66 | Building fails exactly when some topic has an empty tag, because the tag lookup throws. Otherwise the pools hold every word of every topic. |
| WordnetCalculator.RowCount | src/main/java/de/uhd/ifi/se/accompleteness/calculation/wordnet/WordnetCompletenessCalculator.java:79-88 | The number of targets related to one source is at most the target count, and zero exactly when none is related. |
| WordnetCalculator.Term | src/main/java/de/uhd/ifi/se/accompleteness/calculation/wordnet/WordnetCompletenessCalculator.java:90-97 | A share is 0 when its total is 0, which is the NaN replaced by 0. With a non-negative weight and found <= total, it lies between 0 and the weight. |
| WordnetCalculator.ShareBound | src/main/java/de/uhd/ifi/se/accompleteness/calculation/wordnet/WordnetCompletenessCalculator.java:90-91 | weight * found / total lies between 0 and the weight when found <= total. |
| WordnetCalculator.Calculation | src/main/java/de/uhd/ifi/se/accompleteness/calculation/wordnet/WordnetCompletenessCalculator.java:25-100 | The calculation fails exactly when some topic on either side has an empty tag. |
| WordnetCalculator.CountPairs | src/main/java/de/uhd/ifi/se/accompleteness/calculation/wordnet/WordnetCompletenessCalculator.java:67-75 | The literal loops count every equal (source, target) pair. |
| WordnetCalculator.CountClose | src/main/java/de/uhd/ifi/se/accompleteness/calculation/wordnet/WordnetCompletenessCalculator.java:76-89 | The semantic loops count every close pair and record the match map, with later matches overwriting earlier ones. |
| WordnetCalculator.CalculateCompleteness | src/main/java/de/uhd/ifi/se/accompleteness/calculation/wordnet/WordnetCompletenessCalculator.java:25-100 | The method computes the reference calculation. |
| WordnetCalculator.Combine | src/main/java/de/uhd/ifi/se/accompleteness/calculation/wordnet/WordnetCompletenessCalculator.java:67-98 | With both pools built, the loops and the mixing give the reference result on the pools. |
| WordnetCalculator.CalculationOnPools | src/main/java/de/uhd/ifi/se/accompleteness/calculation/wordnet/WordnetCompletenessCalculator.java:25-100 | Once both pools are built, the calculation is the result on those pools. |
| WordnetCalculator.FirstMatchCount | src/main/java/de/uhd/ifi/se/accompleteness/calculation/wordnet/WordnetCompletenessCalculator.java:78-89 | The corrected count, the sources related to at least one target, is at most the number of sources. |
| WordnetCalculator.PairCountVersusFirstMatch | src/main/java/de/uhd/ifi/se/accompleteness/calculation/wordnet/WordnetCompletenessCalculator.java:69-89 | The corrected count never exceeds the pair count. They agree exactly when every source is related to at most one target. |
| WordnetCalculator.CorrectedOnPools | src/main/java/de/uhd/ifi/se/accompleteness/calculation/wordnet/WordnetCompletenessCalculator.java:90-98 | With alpha in [0, 1], the corrected completeness lies in [0, 1]. The match map is the source's. |
| WordnetCalculator.CorrectedCalculation | src/main/java/de/uhd/ifi/se/accompleteness/calculation/wordnet/WordnetCompletenessCalculator.java:25-100 | The corrected calculation fails in the same cases, and with alpha in [0, 1] its completeness lies in [0, 1]. |
| WordnetCalculator.BoundedWhenUnique | src/main/java/de/uhd/ifi/se/accompleteness/calculation/wordnet/WordnetCompletenessCalculator.java:67-98 | When every source word is related to at most one target, the code as written equals the corrected rule and stays in [0, 1]. |
| WordnetCalculator.LiteralOvercountExample | src/main/java/de/uhd/ifi/se/accompleteness/calculation/wordnet/WordnetCompletenessCalculator.java:69-75 | The source topic "foo" against the target topic "foo foo", with alpha 0, gives completeness 2.0 as written and 1.0 corrected. |
| WordnetCalculator.SemanticOvercountExample | src/main/java/de/uhd/ifi/se/accompleteness/calculation/wordnet/WordnetCompletenessCalculator.java:78-89 | One sense close to two equal targets is counted twice as written, because the continue does not leave the inner loop: 2.0 as written, 1.0 corrected, one match recorded. |
| WordnetCalculator.MatchRowOthers | src/main/java/de/uhd/ifi/se/accompleteness/calculation/wordnet/WordnetCompletenessCalculator.java:85 | The inner loop for one source leaves every other key of the match map alone. |
| WordnetCalculator.MatchRowKey | src/main/java/de/uhd/ifi/se/accompleteness/calculation/wordnet/WordnetCompletenessCalculator.java:78-89 | After the inner loop, the source's key is present exactly when it was before or some target is close. |
| WordnetCalculator.MatchRowLastWins | src/main/java/de/uhd/ifi/se/accompleteness/calculation/wordnet/WordnetCompletenessCalculator.java:85-86 | The last close target is the value stored for the source. |
| WordnetCalculator.MatchedKeys | src/main/java/de/uhd/ifi/se/accompleteness/calculation/wordnet/WordnetCompletenessCalculator.java:78-89 | The keys of the match map are exactly the names of source senses close to some target. |
| Strings.IndexOfFrom | src/main/java/de/uhd/ifi/se/accompleteness/model/UserStory.java:122 | `indexOf` from an index: the first occurrence at or after it, or -1 exactly when there is none. |
| Strings.ContainsIff | src/main/java/de/uhd/ifi/se/acgen/generator/gherkin/util/PostprocessingUtils.java:32 | The `indexOf(...) != -1` test holds exactly when the pattern occurs somewhere. |
| Strings.LastIndexOfUpTo | src/main/java/de/uhd/ifi/se/acgen/generator/gherkin/util/PostprocessingUtils.java:49 | `lastIndexOf`: the last occurrence no later than the bound, or -1 exactly when there is none. |
| Strings.LastIndexOfSuffix | src/main/java/de/uhd/ifi/se/acgen/generator/gherkin/util/PostprocessingUtils.java:45-49 | A text ending with the pattern has its last occurrence at the end. |
| Strings.CollapseSpaces | src/main/java/de/uhd/ifi/se/acgen/generator/gherkin/util/ResultUtils.java:235 | `replaceAll("\\s+", " ")` leaves no double space and only plain spaces, and keeps every other character in order. It keeps an empty text empty and a first non-space character in place. |
| Strings.CollapseSpacesConcat | src/main/java/de/uhd/ifi/se/acgen/generator/gherkin/util/ResultUtils.java:235 | Texts joined where no whitespace run spans the seam collapse piece by piece. |
| Strings.CollapseSpacesRun | src/main/java/de/uhd/ifi/se/acgen/generator/gherkin/util/ResultUtils.java:235 | A whole run of whitespace becomes one space. |
| Strings.CollapseSpacesIdentity | src/main/java/de/uhd/ifi/se/acgen/generator/gherkin/util/ResultUtils.java:235 | Text that is already singly and plainly spaced is unchanged. |
| Strings.ReplaceAtOccurrence | src/main/java/de/uhd/ifi/se/acgen/generator/gherkin/util/ResultUtils.java:230 | The left-to-right replacement puts the replacement at the first occurrence and continues after the match. |
| Strings.ReplaceAllAbsent | src/main/java/de/uhd/ifi/se/acgen/generator/gherkin/util/ResultUtils.java:230 | Without an occurrence, the replacement changes nothing. |
| Strings.ReplaceAllBySelf | src/main/java/de/uhd/ifi/se/acgen/generator/gherkin/util/ResultUtils.java:230 | Replacing a pattern by itself changes nothing. |
| Strings.SplitAllRoundTrip | src/main/java/de/uhd/ifi/se/accompleteness/extractor/openie/OpenIEUSExtractor.java:111 | Joining the pieces of a split at single spaces with spaces gives back the text. |
| Strings.IntToStringRoundTrip | src/main/java/de/uhd/ifi/se/acgen/model/UvlResponse.java:113 | `Integer.toString` is read back by the decimal parser. |
| Strings.IntToStringInjective | src/main/java/de/uhd/ifi/se/acgen/model/UvlResponse.java:113 | Different indices get different decimal keys. |
| Strings.TrimLeadingSpaces | src/main/java/de/uhd/ifi/se/acgen/generator/gherkin/util/ResultUtils.java:238 | `replaceAll("^\\s+", "")` drops exactly the leading whitespace and keeps the rest. |
| Strings.StripTrailing | src/main/java/de/uhd/ifi/se/acgen/generator/gherkin/util/ActionUtils.java:360-362 | The loop drops exactly the trailing run of the given character (commas here, spaces in the criterion cut) and keeps a prefix that does not end with it. |
| Strings.RemoveChar | src/main/java/de/uhd/ifi/se/accompleteness/rest/RunRest.java:150 | `replace("\n", "")` leaves no line feed and leaves text without one unchanged. |
| Strings.RemoveCharAppend | src/main/java/de/uhd/ifi/se/accompleteness/rest/RunRest.java:150 | Removing a character distributes over concatenation. |
| Strings.RemoveCharIsWithout | src/main/java/de/uhd/ifi/se/accompleteness/rest/RunRest.java:150 | Removing a character keeps every other character, in order. |
| Strings.SplitSpace | src/main/java/de/uhd/ifi/se/accompleteness/extractor/openie/OpenIEUSExtractor.java:111 | `split(" ")` gives pieces without spaces, and a text without a space is its only piece. |
| JavaInts.Wrap32 | src/main/java/de/uhd/ifi/se/acgen/model/AcceptanceCriterion.java:147 | Java `int` arithmetic: the result is a 32-bit value congruent to the exact one modulo 2^32, and equal to it when it fits. |
| Parses.Node | src/main/java/de/uhd/ifi/se/acgen/generator/gherkin/util/PreprocessingUtils.java:99 | `getNodeByIndex` finds the token exactly when the 1-based index is a token of the sentence, and throws otherwise. |
| Parses.Parent | src/main/java/de/uhd/ifi/se/acgen/generator/gherkin/util/PreprocessingUtils.java:99 | `getParent` succeeds exactly for a token. It gives the token's head, or null for the root. |
| Parses.Children | src/main/java/de/uhd/ifi/se/acgen/generator/gherkin/util/PreprocessingUtils.java:171 | `getChildList` lists, in index order, exactly the tokens whose head is the parent. |

## Left out

- Stanford CoreNLP is not modelled. Tokenising, tagging, dependency parsing, coreference and OpenIE are not computed. Their results are inputs: `Parses.Sentence`, the mention lists and the triples.
- WordNet and the string-similarity measure are foreign libraries. Dictionary lookup, sense names, hypernym depth and similarity are function parameters. Nothing is assumed about them beyond their types.
- `SharedUtils.identifyVerb`, `PreprocessingUtils.identifySubject` and `getCoreferencesOfWord` are left out. They read the CoreNLP graph and coreference chains. The subject and its mentions are parameters of `Preprocessing.SwitchToThirdPerson`.
- `ActionUtils.extractActionFromConditionalStarterWord`, `getRootOfAction` and `ResultUtils.postprocessResultString` (`ResultUtils.java:34-149`) are left out. They are driven by the dependency graph and the OpenIE output. Their scanners and helpers that work without a parse are modelled.
- The Gherkin generator that drives the utilities is not part of this model, and neither is the `acgen` REST loop. Both are source files this model does not include.
- The HTTP layer is left out: `App`, both `StatusRest` classes and both `createResponse` methods. It is request plumbing around the functions modelled here. The 500 page for an aborted batch is modelled as a `Failure` of `RestRunner.AddAcceptanceCriteriaToResponse`.
- JSON is modelled as maps. Gson objects become maps and sequences. The keys of the response maps are the integer indices, and `Strings.IntToString` renders them to the decimal keys that the JSON holds. That rendering is proved injective.
- Java `double` is modelled as exact `real`. Rounding is not modelled. The one IEEE value that matters, the NaN of 0/0, is modelled as the `NotANumber` case of `NaiveCalculator.Ratio`.
- `GeneratorResponse.AddMetric` stores an `int`. It does not model the other Gson number types a metric may hold.
- Case mapping covers ASCII letters only. `toLowerCase`, `toUpperCase` and `equalsIgnoreCase` on other letters are not modelled.
- Java regular expressions are modelled as explicit scanners for the few patterns the code uses: the run of three or more dots, the list/note marker, `\s+` and `indexOf(".")`. `UserStories.DotFromIsIndexOf` proves the period scanner equal to `indexOf` from that position. Java's `\s` is taken as space, tab, line feed, vertical tab, form feed and carriage return.
- `UsExtractor.CollectTriples` takes the triples with their subject and object already turned into topics. The OpenIE run that produces them is not modelled. The confidence filter over them is.
- `RestRunner.DocumentElement` gives the exception message only for the "no user story" errors of the parser. Other exceptions in the analysis are a parameter of the pipeline (`Outcome`).
- `WordnetCalculator.CalculateCompleteness` follows the calculator's own three-argument form. The two-argument call made by `RunRest` belongs to a different version of the calculator's API. The two are not reconciled.
- `UsExtractor.CollectTriples` builds topics with the two-field `Topic` of `Topic.java:13-18`. `OpenIEUSExtractor.java:55-60` calls a four-argument `Topic` constructor and `UserStory.getGoalStartPosition()`. Neither exists in that version of `Topic` and `UserStory`, so the extractor belongs to a different version of their API. The positions are dropped. Topic equality never reads them.
- Concurrency, logging and the configuration readers (`OpenIEExtractionParams`, `WordnetCalculationParams`) are left out. The parameters they read are plain record fields.

## Findings

| source | as written | input that shows it | evidently intended | confidence | as-written member | corrected member |
|---|---|---|---|---|---|---|
| src/main/java/de/uhd/ifi/se/accompleteness/model/UserStory.java:104-107 | The list/note index is measured in the shortened text, which starts at "As a". It is compared with the length of the whole input, so " […]" is appended whenever any text precedes "As a", even with no list or note. | "Hi. As a user, I want x" | Append " […]" only when a list or note marker cut the text. Compare with the length of the kept text. | medium, not executed | UserStories.MarkCutAsWrittenExample, UserStories.MarkCutAsWrittenIff | UserStories.MarkCutIff |
| src/main/java/de/uhd/ifi/se/accompleteness/calculation/wordnet/WordnetCompletenessCalculator.java:69-89 | Both found-counts count every matching (story word, criteria word) pair. `continue` does not leave the inner loop, so one story word can be found several times and the ratio can exceed 1. | story topic "foo", criteria topic "foo foo", alpha 0: completeness 2 | Count each story word at most once, so that each ratio stays within [0, 1]. | high, not executed | WordnetCalculator.LiteralOvercountExample, WordnetCalculator.SemanticOvercountExample | WordnetCalculator.CorrectedCalculation, WordnetCalculator.PairCountVersusFirstMatch |
| src/main/java/de/uhd/ifi/se/accompleteness/rest/RunRest.java:94-146 | `errors` is declared as 0 and never incremented, so the trailer's `errorCount` is 0 even when documents produced error objects. | one document whose story text has no "as a" | Count the documents that produced an error object. | high, not executed | RestRunner.AddAcceptanceCriteriaToResponse, RestRunner.ErrorObjectExample | RestRunner.CorrectedResponse, RestRunner.ErrorCountExample |
| src/main/java/de/uhd/ifi/se/accompleteness/calculation/naive/NaiveCompletenessCalculator.java:32 | The quotient has no guard, so a story without topics gives 0/0 = NaN. | empty list of story topics | Guard the empty case as the WordNet calculator does for its own quotients, giving 0. | medium, not executed | NaiveCalculator.EmptySourcesAreNaN | NaiveCalculator.GuardedCompleteness |
| src/main/java/de/uhd/ifi/se/acgen/generator/gherkin/util/PostprocessingUtils.java:45-55 | The conditional starter is found by a plain suffix test, so a word that merely ends in a starter loses those letters. | "x motif y" cut before the criterion "y" gives "x mot" | Remove a starter only when it is a whole word. | medium, not executed | Postprocessing.MotifExample | Postprocessing.CorrectedCutOff, Postprocessing.CorrectedCutAtWord |
