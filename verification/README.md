# Article store and relevance matcher of `knowledge.js`

A Dafny model of the logic core of the clarity-ai client script `knowledge.js`.
That core is the only part of the script that is not presentation:

- **Article store** (`KnowledgeBase`): the fixed table `knowledgeBase` of six
  legal-article summaries (AI Act articles 5, 6 and 13; RGPD articles 5, 9 and 22).
  Each record has an id, a law, a title, a body, a category and an importance
  (`haute`, `moyenne` or `basse`).
- **Lookup** (`KnowledgeBase.GetArticleById`): `getArticleById`, a total
  lookup. It returns the stored record, or a fixed fallback record whose id is
  `not_found`.
- **Relevance matcher** (`Matcher`): `findRelevantArticles`. It works in four steps.
  - It lower-cases the text.
  - It walks six keyword rules in order. A rule fires when one of its keywords is
    a substring of the lower-cased text (`Text.Includes`). The rule's article ids
    are then pushed in declared order, skipping ids already present
    (`Dedup.AppendMissing`).
  - It keeps the first three ids.
  - It resolves each kept id through the lookup.

Modules follow the program's structure:

- `text.dfy`: substring search.
- `dedup.dfy`: the order-preserving de-duplicating push. It also holds an
  independent reference definition, `FirstOccurrences`, that keeps each element
  where it first appears.
- `knowledge_base.dfy`: records, the store and the lookup.
- `matcher.dfy`: rules and the matcher, and the properties of the matcher.

The key theorem is `Matcher.DetectedIsFirstOccurrencesOfFired`. It says the
detected list equals `FirstOccurrences` of the concatenated article lists of
the firing rules. Every membership, ordering and no-duplicate fact follows from
it.

Modelling choices:

- JavaScript's `toLowerCase` is a library call. It is the parameter
  `lower: string -> string` of `FindRelevantArticles`, and properties are stated
  over `lower(text)`.
- The limit of three is the literal `slice(0, 3)` of the source. It is the
  constant `Matcher.MaxResults`, not a parameter.
- The fallback record has category `"À venir"` and importance `basse`.
- Article bodies are the constructors of `KnowledgeBase.Body`, and
  `Body.Text()` gives the full French text. No property depends on the text,
  and keeping it out of the records keeps the proofs small.
- Strings are `seq<char>`. JavaScript strings are UTF-16 code units. Every
  character in the keywords and ids is in the Basic Multilingual Plane, so the
  two views agree on them.

## Model

| member | source | states |
|---|---|---|
| KnowledgeBase.GetArticleById | knowledge.js:53-62 | Total lookup: a key of the store yields its stored record, and every other id (including `not_found` itself) yields the fallback record; the result's id is `not_found` exactly when the id is not a key |
| KnowledgeBase.StoreIsWellKeyed | knowledge.js:2-51 | Every record is filed under its own id, and no record uses the fallback id `not_found` |
| KnowledgeBase.LookupRoundTrip | knowledge.js:53-54 | For a stored id the returned record carries that id, and looking up that record's id gives the same record back |
| KnowledgeBase.GetArticleByIdAsWritten | knowledge.js:53-62 | The lookup as JavaScript evaluates it: the value is an inherited member exactly when the id is not a key but is an `Object.prototype` property name; otherwise it agrees with the corrected lookup |
| KnowledgeBase.InheritedNameMissesFallback | knowledge.js:54 | `"toString"` is not a stored id, yet the as-written lookup does not give the fallback record; the corrected lookup does |
| Text.Includes | knowledge.js:97 | `hay.includes(needle)` is true exactly when the needle sits at some index of the text |
| Text.AbsentCharBlocksOccurrence | knowledge.js:97 | A keyword containing a character missing from the text never matches it |
| Matcher.AnyIncluded | knowledge.js:97 | `keywords.some(k => text.includes(k))` is true exactly when some keyword of the list is a substring of the text |
| Dedup.AppendMissing | knowledge.js:99-101 | Pushing a rule's ids keeps what was detected as a prefix, keeps the list duplicate-free, and its elements are exactly the old ones plus the rule's ids |
| Dedup.FirstOccurrencesElements | knowledge.js:99-100 | The first-occurrence list has exactly the elements of its input, each once |
| Dedup.FirstOccurrencesOrdered | knowledge.js:96-103 | The first-occurrence list orders its elements by the index where each first appears in the input |
| Dedup.AppendMissingIsFirstOccurrences | knowledge.js:99-101 | Pushing the missing ids of `xs` onto the first occurrences of `p` gives the first occurrences of `p + xs` |
| Dedup.AppendMissingToEmpty | knowledge.js:99-101 | Starting from an empty list, a repeat-free article list is pushed whole, in order |
| Matcher.DetectFrom | knowledge.js:96-103 | The rule walk only appends to what was already detected and never introduces a duplicate |
| Matcher.Detected | knowledge.js:66-103 | The walk over all six rules, started from the empty `detected` list, yields a list without duplicates |
| Matcher.DetectFromIsFirstOccurrences | knowledge.js:96-103 | Walking the rules from the first occurrences of `p` yields the first occurrences of `p` followed by the fired rules' articles |
| Matcher.DetectedIsFirstOccurrencesOfFired | knowledge.js:96-103 | The detected list is the concatenated article lists of the firing rules, in rule order, with every repeat after the first dropped |
| Matcher.DetectedInFirstSeenOrder | knowledge.js:96-103 | Detected ids are ordered by their first appearance among the firing rules' articles |
| Matcher.FiredIdsMembers | knowledge.js:96-103 | An id is among the firing rules' articles exactly when some firing rule lists it |
| Matcher.DetectedSoundAndComplete | knowledge.js:96-103 | An id is detected exactly when some rule with a keyword occurring in the text lists it, and no id is detected twice |
| Matcher.RuleArticlesAreStored | knowledge.js:69-94 | Every article id named by a rule is a key of the store |
| Matcher.RuleArticlesAreDistinct | knowledge.js:69-94 | No rule lists an article twice |
| Matcher.KeywordsAreNonEmpty | knowledge.js:69-94 | No rule has an empty keyword |
| Matcher.DetectedAreStored | knowledge.js:72-92 | Every detected id is a stored id, and the detected list has no duplicates |
| Matcher.FindRelevantArticles | knowledge.js:64-107 | At most three records; exactly min(3, number detected); the i-th record is the lookup of the i-th detected id |
| Matcher.Truncate | knowledge.js:106 | `slice(0, 3)`: the result is a prefix of the detected ids, of length min(3, number detected) |
| Matcher.LookupAll | knowledge.js:106 | `map(getArticleById)`: one record per id, the i-th being the lookup of the i-th id |
| Matcher.ResultIdsArePrefix | knowledge.js:106 | The returned ids are the first min(3, number detected) detected ids, in order, without duplicates |
| Matcher.ResultIsNeverFallback | knowledge.js:106 | Every returned record is a stored article, never the `not_found` fallback |
| Matcher.SameLoweredTextSameResult | knowledge.js:65 | Two texts with the same lower-cased form get the same records |
| Matcher.NoMatchNoArticles | knowledge.js:96-106 | If no rule fires on the lower-cased text, the result is empty |
| Matcher.EmptyTextNoArticles | knowledge.js:64-106 | The empty text gives the empty result, because no keyword is empty |
| Matcher.SilentRulesSkipped | knowledge.js:96-98 | Rules that do not fire leave the walk unchanged |
| Matcher.FirstFiringRuleLeads | knowledge.js:96-103 | The first rule that fires puts its articles, in declared order, at the head of the detected list |
| Matcher.LeadingRuleDecides | knowledge.js:96-106 | If the first firing rule lists three articles, those three are the result whatever later rules fire |
| Matcher.RecruitmentScenario | knowledge.js:74-106 | A text that fires the recruitment rule but not the surveillance rule yields AI Act article 6, RGPD article 22, RGPD article 5 |
| Matcher.HealthScenario | knowledge.js:78-106 | A text that fires the health rule but neither earlier rule yields RGPD article 9, AI Act article 6, RGPD article 5, whatever later rules fire |
| Matcher.RecruitmentText | knowledge.js:64-107 | The text "recrutement" yields AI Act article 6, RGPD article 22, RGPD article 5 |
| Matcher.HealthText | knowledge.js:64-107 | The text "santé donnée personnelle", which also mentions personal data, yields RGPD article 9, AI Act article 6, RGPD article 5 |
| Matcher.SurveillanceRuleSilent | knowledge.js:71 | A text with no `b`, `c` or `v` never fires the surveillance rule |
| Matcher.RecruitmentRuleSilent | knowledge.js:75 | A text with no `b` or `c` never fires the recruitment rule |

## Left out

- `showRelevantRegulations` (knowledge.js:109-224): it builds HTML and CSS and
  maps importance to colours and badges. It is presentation only.
- `showFullArticle` (knowledge.js:226-369): it creates a DOM modal and adds
  click handlers and animations. These are browser side effects.
- Registering the functions on `window` (knowledge.js:372-374): runtime plumbing.
- `String.prototype.toLowerCase`: a library call with Unicode case mapping. It
  is the parameter `lower`. No theorem depends on how it maps characters.
- `Matcher.SameLoweredTextSameResult`: it does not prove case-insensitivity
  itself. That would depend on the library's case mapping, so the lemma states
  only that the result depends on the text through `lower(text)`.
- Idempotence (same input, same output): it holds by construction, since every
  member is a pure function over immutable constants. No lemma states it.

## Findings

| source | as written | input that shows it | evidently intended | confidence | as-written member | corrected member |
|---|---|---|---|---|---|---|
| knowledge.js:54 | The lookup indexes a plain object literal, so an id equal to an inherited `Object.prototype` property name finds that truthy inherited member and skips the fallback | `getArticleById("toString")` returns the inherited function instead of the `not_found` record | Every id that is not one of the six keys yields the fallback record | high, not executed | KnowledgeBase.GetArticleByIdAsWritten | KnowledgeBase.GetArticleById |

The as-written lookup is shown to miss the fallback by
`KnowledgeBase.InheritedNameMissesFallback`. The rest of the model uses the
corrected `KnowledgeBase.GetArticleById`. The matcher itself never passes such
an id, because every rule id is a stored key (`Matcher.RuleArticlesAreStored`).
