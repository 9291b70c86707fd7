/** The relevance matcher `findRelevantArticles` of `knowledge.js`: lower-case
    the text, walk the keyword rules in order, collect the ids of every rule one
    of whose keywords is a substring of the text (first occurrence wins), keep
    the first three, and resolve them through the store.

    JavaScript's `toLowerCase` is a library call whose Unicode case mapping is
    not modelled: the matcher takes it as the parameter `lower`. */
module Matcher {
  import opened Text
  import opened Dedup
  import opened KnowledgeBase

  /** A keyword rule: if any keyword occurs in the text, surface the articles. */
  datatype Rule = Rule(keywords: seq<string>, articles: seq<ArticleId>)

  /** The rules, in the order they are tried. */
  const Rules: seq<Rule> := [
    Rule(["reconnaissance faciale", "surveillance", "biométrie"],
         ["ai_act_article_5", "rgpd_article_9"]),
    Rule(["recrutement", "embauche", "cv", "candidat"],
         ["ai_act_article_6", "rgpd_article_22", "rgpd_article_5"]),
    Rule(["santé", "médical", "diagnostic", "patient"],
         ["rgpd_article_9", "ai_act_article_6", "rgpd_article_5"]),
    Rule(["finance", "crédit", "scoring", "prêt"],
         ["ai_act_article_6", "rgpd_article_22"]),
    Rule(["documentation", "technique", "conformité"],
         ["ai_act_article_13", "rgpd_article_5"]),
    Rule(["donnée personnelle", "vie privée", "rgpd"],
         ["rgpd_article_5", "rgpd_article_9"])
  ]

  /** At most this many articles are returned. */
  const MaxResults: nat := 3

  /** A rule fires on `text` when one of its keywords is a substring of it. */
  ghost predicate Fires(rule: Rule, text: string) {
    exists k :: k in rule.keywords && Occurs(k, text)
  }

  /** `keywords.some(k => text.includes(k))`. */
  function AnyIncluded(keywords: seq<string>, text: string): (r: bool)
    ensures r <==> exists k :: k in keywords && Occurs(k, text)
    decreases |keywords|
  {
    if keywords == [] then
      false
    else
      assert forall k :: k in keywords <==> k == keywords[0] || k in keywords[1..];
      Includes(text, keywords[0]) || AnyIncluded(keywords[1..], text)
  }

  /** The `rules.forEach` walk: rule by rule, push each article id of a rule
      that fires, unless `detected` already holds it. */
  function DetectFrom(rules: seq<Rule>, text: string, detected: seq<ArticleId>): (r: seq<ArticleId>)
    ensures detected <= r
    ensures NoDups(detected) ==> NoDups(r)
    decreases |rules|
  {
    if rules == [] then
      detected
    else
      var rule := rules[0];
      var detected' := if AnyIncluded(rule.keywords, text) then AppendMissing(detected, rule.articles)
                       else detected;
      DetectFrom(rules[1..], text, detected')
  }

  /** The untruncated list of detected ids for an already lower-cased text. */
  function Detected(textLower: string): (r: seq<ArticleId>)
    ensures NoDups(r)
  {
    DetectFrom(Rules, textLower, [])
  }

  /** Reference definition: the article lists of the firing rules, in rule
      order and within a rule in declared order, duplicates included. */
  ghost function FiredIds(rules: seq<Rule>, text: string): seq<ArticleId>
    decreases |rules|
  {
    if rules == [] then [] else FiredArticles(rules[0], text) + FiredIds(rules[1..], text)
  }

  /** The articles of `rule` if it fires, else nothing. */
  ghost function FiredArticles(rule: Rule, text: string): seq<ArticleId> {
    if Fires(rule, text) then rule.articles else []
  }

  /** Some rule that fires lists `id`. */
  ghost predicate Surfaces(rules: seq<Rule>, text: string, id: ArticleId) {
    exists j :: 0 <= j < |rules| && Fires(rules[j], text) && id in rules[j].articles
  }

  /** `findRelevantArticles(text)`, with `lower` standing for `toLowerCase`:
      the first `MaxResults` detected ids, each resolved through the store. */
  function FindRelevantArticles(text: string, lower: string -> string): (r: seq<Article>)
    ensures |r| <= MaxResults
    ensures |r| == if |Detected(lower(text))| < MaxResults then |Detected(lower(text))| else MaxResults
    ensures forall i :: 0 <= i < |r| ==> r[i] == GetArticleById(Detected(lower(text))[i])
  {
    var detected := Detected(lower(text));
    LookupPrefix(detected, Truncate(detected));
    LookupAll(Truncate(detected))
  }

  /** `detected.slice(0, MaxResults)`. */
  function Truncate(ids: seq<ArticleId>): (r: seq<ArticleId>)
    ensures r <= ids
    ensures |r| == if |ids| < MaxResults then |ids| else MaxResults
  {
    if |ids| < MaxResults then ids else ids[..MaxResults]
  }

  /** `ids.map(id => getArticleById(id))`. */
  function LookupAll(ids: seq<ArticleId>): (r: seq<Article>)
    ensures |r| == |ids|
    ensures forall i :: 0 <= i < |r| ==> r[i] == GetArticleById(ids[i])
  {
    seq(|ids|, i requires 0 <= i < |ids| => GetArticleById(ids[i]))
  }

  /** Resolving a prefix of `ids` resolves the first ids of `ids`. */
  lemma LookupPrefix(ids: seq<ArticleId>, kept: seq<ArticleId>)
    requires kept <= ids
    ensures forall i :: 0 <= i < |kept| ==> LookupAll(kept)[i] == GetArticleById(ids[i])
  {
    forall i | 0 <= i < |kept|
      ensures LookupAll(kept)[i] == GetArticleById(ids[i])
    {
      assert kept[i] == ids[i];
    }
  }

  /** The ids of a list of records. */
  function Ids(articles: seq<Article>): (ids: seq<ArticleId>)
    ensures |ids| == |articles|
    ensures forall i :: 0 <= i < |ids| ==> ids[i] == articles[i].id
  {
    seq(|articles|, i requires 0 <= i < |articles| => articles[i].id)
  }

  // ---------------------------------------------------------------------
  // Configuration

  /** Every id that a rule lists is a key of the store, so the matcher never
      resolves to the fallback record. */
  lemma RuleArticlesAreStored()
    ensures forall j, id :: 0 <= j < |Rules| && id in Rules[j].articles ==> id in Store
  {
  }

  /** No rule has an empty keyword (an empty keyword would match every text). */
  lemma KeywordsAreNonEmpty()
    ensures forall j, k :: 0 <= j < |Rules| && k in Rules[j].keywords ==> k != []
  {
  }

  // ---------------------------------------------------------------------
  // Ordering, soundness and completeness of the detected list

  /** One rule of the walk, restated on first occurrences. */
  lemma DetectFromFirstStep(rules: seq<Rule>, text: string, p: seq<ArticleId>)
    requires rules != []
    ensures DetectFrom(rules, text, FirstOccurrences(p)) ==
      DetectFrom(rules[1..], text, FirstOccurrences(p + FiredArticles(rules[0], text)))
  {
    var rule := rules[0];
    if Fires(rule, text) {
      AppendMissingIsFirstOccurrences(p, rule.articles);
    } else {
      assert p + FiredArticles(rule, text) == p;
    }
  }

  /** Moving the first rule's articles onto `p` leaves the first occurrences unchanged. */
  lemma FiredIdsRegroup(rules: seq<Rule>, text: string, p: seq<ArticleId>)
    requires rules != []
    ensures FirstOccurrences(p + FiredArticles(rules[0], text) + FiredIds(rules[1..], text)) ==
      FirstOccurrences(p + FiredIds(rules, text))
  {
    var front, back := FiredArticles(rules[0], text), FiredIds(rules[1..], text);
    assert FiredIds(rules, text) == front + back;
    assert p + front + back == p + (front + back);
  }

  /** The walk, started from the first occurrences of `p`, yields the first
      occurrences of `p` followed by the articles of the firing rules. */
  lemma {:induction false} DetectFromIsFirstOccurrences(rules: seq<Rule>, text: string, p: seq<ArticleId>)
    ensures DetectFrom(rules, text, FirstOccurrences(p)) == FirstOccurrences(p + FiredIds(rules, text))
    decreases |rules|
  {
    if rules == [] {
      assert p + FiredIds(rules, text) == p;
    } else {
      DetectFromFirstStep(rules, text, p);
      DetectFromIsFirstOccurrences(rules[1..], text, p + FiredArticles(rules[0], text));
      FiredIdsRegroup(rules, text, p);
    }
  }

  /** First-seen ordering: the detected list is exactly the articles of the
      firing rules with every repeat after the first dropped. */
  lemma DetectedIsFirstOccurrencesOfFired(textLower: string)
    ensures Detected(textLower) == FirstOccurrences(FiredIds(Rules, textLower))
  {
    DetectFromIsFirstOccurrences(Rules, textLower, []);
    assert [] + FiredIds(Rules, textLower) == FiredIds(Rules, textLower);
  }

  /** The detected ids appear in the order in which they are first met when
      walking the firing rules in declaration order, and each rule's
      articles in declared order. */
  lemma DetectedInFirstSeenOrder(textLower: string)
    ensures forall i, j :: 0 <= i < j < |Detected(textLower)| ==>
      Detected(textLower)[i] in FiredIds(Rules, textLower) &&
      Detected(textLower)[j] in FiredIds(Rules, textLower) &&
      FirstIndex(FiredIds(Rules, textLower), Detected(textLower)[i]) <
      FirstIndex(FiredIds(Rules, textLower), Detected(textLower)[j])
  {
    DetectedIsFirstOccurrencesOfFired(textLower);
    OrderedByFirstIndex(Detected(textLower), FiredIds(Rules, textLower));
  }

  /** An id is among the fired articles exactly when a firing rule lists it. */
  lemma {:induction false} FiredIdsMembers(rules: seq<Rule>, text: string, id: ArticleId)
    ensures id in FiredIds(rules, text) <==> Surfaces(rules, text, id)
    decreases |rules|
  {
    if rules != [] {
      FiredIdsMembers(rules[1..], text, id);
      if Surfaces(rules[1..], text, id) {
        var j :| 0 <= j < |rules[1..]| && Fires(rules[1..][j], text) && id in rules[1..][j].articles;
        assert rules[1..][j] == rules[j + 1];
      }
      if Surfaces(rules, text, id) {
        var j :| 0 <= j < |rules| && Fires(rules[j], text) && id in rules[j].articles;
        if j > 0 {
          assert rules[1..][j - 1] == rules[j];
        }
      }
    }
  }

  /** Soundness and completeness, without duplicates: an id is detected
      exactly when some firing rule lists it, and it is detected once. */
  lemma DetectedSoundAndComplete(textLower: string)
    ensures forall id :: id in Detected(textLower) <==> Surfaces(Rules, textLower, id)
    ensures NoDups(Detected(textLower))
  {
    DetectedIsFirstOccurrencesOfFired(textLower);
    FirstOccurrencesElements(FiredIds(Rules, textLower));
    forall id
      ensures id in Detected(textLower) <==> Surfaces(Rules, textLower, id)
    {
      FiredIdsMembers(Rules, textLower, id);
    }
  }

  /** Configuration closure: the matcher only ever detects stored ids, and
      each detected id once. */
  lemma DetectedAreStored(textLower: string)
    ensures forall id :: id in Detected(textLower) ==> id in Store
    ensures NoDups(Detected(textLower))
  {
    DetectedSoundAndComplete(textLower);
    RuleArticlesAreStored();
  }

  // ---------------------------------------------------------------------
  // Results

  /** Looking up stored ids gives records carrying those same ids. */
  lemma {:induction false} LookupAllKeepsIds(ids: seq<ArticleId>)
    requires forall id :: id in ids ==> id in Store
    ensures Ids(LookupAll(ids)) == ids
    ensures forall a :: a in LookupAll(ids) ==> a.id in Store && a != Fallback
  {
    var r := LookupAll(ids);
    forall i | 0 <= i < |r|
      ensures r[i].id == ids[i] && r[i] != Fallback
    {
      assert ids[i] in ids;
    }
  }

  /** The result lists the first `min(3, |detected|)` detected ids, in
      order, each once. */
  lemma ResultIdsArePrefix(text: string, lower: string -> string)
    ensures Ids(FindRelevantArticles(text, lower)) == Truncate(Detected(lower(text)))
    ensures Ids(FindRelevantArticles(text, lower)) <= Detected(lower(text))
    ensures NoDups(Ids(FindRelevantArticles(text, lower)))
  {
    var kept := Truncate(Detected(lower(text)));
    DetectedAreStored(lower(text));
    assert forall id :: id in kept ==> id in Detected(lower(text));
    LookupAllKeepsIds(kept);
  }

  /** Configuration closure at the output: every returned record is a stored
      article, never the fallback. */
  lemma ResultIsNeverFallback(text: string, lower: string -> string)
    ensures forall a :: a in FindRelevantArticles(text, lower) ==> a.id in Store && a != Fallback
  {
    var kept := Truncate(Detected(lower(text)));
    DetectedAreStored(lower(text));
    assert forall id :: id in kept ==> id in Detected(lower(text));
    LookupAllKeepsIds(kept);
  }

  /** The text matters only through its lower-cased form: two texts that
      lower-case alike (say "RECONNAISSANCE FACIALE" and
      "reconnaissance faciale" under a lower-casing that maps one to the
      other) get the same records. */
  lemma SameLoweredTextSameResult(a: string, b: string, lower: string -> string)
    requires lower(a) == lower(b)
    ensures FindRelevantArticles(a, lower) == FindRelevantArticles(b, lower)
  {
  }

  /** When no keyword of any rule occurs in the lower-cased text, nothing is returned. */
  lemma NoMatchNoArticles(text: string, lower: string -> string)
    requires forall j :: 0 <= j < |Rules| ==> !Fires(Rules[j], lower(text))
    ensures FindRelevantArticles(text, lower) == []
  {
    SilentRulesSkipped(Rules, lower(text), [], |Rules|);
    assert Rules[|Rules|..] == [];
  }

  /** The empty text (which lower-cases to itself) matches no rule, as no
      keyword is empty. */
  lemma EmptyTextNoArticles(lower: string -> string)
    requires lower([]) == []
    ensures FindRelevantArticles([], lower) == []
  {
    KeywordsAreNonEmpty();
    forall j | 0 <= j < |Rules|
      ensures !Fires(Rules[j], [])
    {
      forall k | k in Rules[j].keywords
        ensures !Occurs(k, [])
      {
        NothingOccursInEmpty(k);
      }
    }
    NoMatchNoArticles([], lower);
  }

  /** Rules that do not fire leave the walk untouched. */
  lemma {:induction false} SilentRulesSkipped(rules: seq<Rule>, text: string, detected: seq<ArticleId>, k: nat)
    requires k <= |rules|
    requires forall i :: 0 <= i < k ==> !Fires(rules[i], text)
    ensures DetectFrom(rules, text, detected) == DetectFrom(rules[k..], text, detected)
    decreases k
  {
    if k > 0 {
      assert !Fires(rules[0], text);
      assert DetectFrom(rules, text, detected) == DetectFrom(rules[1..], text, detected);
      SilentRulesSkipped(rules[1..], text, detected, k - 1);
      assert rules[1..][k - 1..] == rules[k..];
    }
  }

  /** The article list of every rule is free of repeats. */
  lemma RuleArticlesAreDistinct()
    ensures forall j :: 0 <= j < |Rules| ==> NoDups(Rules[j].articles)
  {
  }

  /** When rule `j` is the first rule that fires and lists no article twice,
      its articles open the list the walk builds from nothing. */
  lemma FirstFiringLeadsWalk(rules: seq<Rule>, text: string, j: nat)
    requires j < |rules|
    requires forall i :: 0 <= i < j ==> !Fires(rules[i], text)
    requires Fires(rules[j], text)
    requires NoDups(rules[j].articles)
    ensures rules[j].articles <= DetectFrom(rules, text, [])
  {
    var rest := rules[j..];
    SilentRulesSkipped(rules, text, [], j);
    AppendMissingToEmpty(rules[j].articles);
    assert rest[0] == rules[j] && rest[1..] == rules[j + 1..];
    assert DetectFrom(rest, text, []) == DetectFrom(rules[j + 1..], text, rules[j].articles);
  }

  /** When rule `j` is the first rule that fires, its articles open the
      detected list, in their declared order. */
  lemma FirstFiringRuleLeads(textLower: string, j: nat)
    requires j < |Rules|
    requires forall i :: 0 <= i < j ==> !Fires(Rules[i], textLower)
    requires Fires(Rules[j], textLower)
    ensures Rules[j].articles <= Detected(textLower)
  {
    RuleArticlesAreDistinct();
    FirstFiringLeadsWalk(Rules, textLower, j);
  }

  /** A prefix of exactly `MaxResults` ids is what truncation keeps. */
  lemma TruncateFullPrefix(ids: seq<ArticleId>, front: seq<ArticleId>)
    requires front <= ids
    requires |front| == MaxResults
    ensures Truncate(ids) == front
  {
  }

  /** When rule `j` is the first rule that fires and lists exactly
      `MaxResults` articles, the result is those articles, whatever later
      rules fire. */
  lemma LeadingRuleDecides(text: string, lower: string -> string, j: nat)
    requires j < |Rules|
    requires forall i :: 0 <= i < j ==> !Fires(Rules[i], lower(text))
    requires Fires(Rules[j], lower(text))
    requires |Rules[j].articles| == MaxResults
    ensures Ids(FindRelevantArticles(text, lower)) == Rules[j].articles
  {
    var articles := Rules[j].articles;
    FirstFiringRuleLeads(lower(text), j);
    TruncateFullPrefix(Detected(lower(text)), articles);
    ResultIdsArePrefix(text, lower);
  }

  /** A text about recruitment that does not fire the surveillance rule gives
      AI Act article 6, RGPD article 22 and RGPD article 5, in that order. */
  lemma RecruitmentScenario(text: string, lower: string -> string)
    requires !Fires(Rules[0], lower(text))
    requires Fires(Rules[1], lower(text))
    ensures Ids(FindRelevantArticles(text, lower)) == ["ai_act_article_6", "rgpd_article_22", "rgpd_article_5"]
  {
    LeadingRuleDecides(text, lower, 1);
  }

  /** A text about health that fires neither the surveillance nor the
      recruitment rule gives RGPD article 9, AI Act article 6 and RGPD
      article 5; a personal-data mention as well adds nothing new. */
  lemma HealthScenario(text: string, lower: string -> string)
    requires !Fires(Rules[0], lower(text))
    requires !Fires(Rules[1], lower(text))
    requires Fires(Rules[2], lower(text))
    ensures Ids(FindRelevantArticles(text, lower)) == ["rgpd_article_9", "ai_act_article_6", "rgpd_article_5"]
  {
    LeadingRuleDecides(text, lower, 2);
  }

  /** The concrete text "recrutement" (already lower case). */
  lemma RecruitmentText(lower: string -> string)
    requires lower("recrutement") == "recrutement"
    ensures Ids(FindRelevantArticles("recrutement", lower)) == ["ai_act_article_6", "rgpd_article_22", "rgpd_article_5"]
  {
    var t := "recrutement";
    forall k | k in Rules[0].keywords
      ensures !Occurs(k, t)
    {
      if k == "biométrie" {
        AbsentCharBlocksOccurrence(k, t, 'b');
      }
    }
    assert OccursAt("recrutement", t, 0);
    assert "recrutement" in Rules[1].keywords;
    RecruitmentScenario(t, lower);
  }

  /** The concrete text "santé donnée personnelle" (already lower case): the
      health rule is the first to fire, so the personal-data mention changes
      nothing in the first three. */
  lemma HealthText(lower: string -> string)
    requires lower("santé donnée personnelle") == "santé donnée personnelle"
    ensures Ids(FindRelevantArticles("santé donnée personnelle", lower)) == ["rgpd_article_9", "ai_act_article_6", "rgpd_article_5"]
  {
    HealthPhraseFiring("santé donnée personnelle");
    HealthScenario("santé donnée personnelle", lower);
  }

  /** On "santé donnée personnelle" the surveillance and recruitment rules stay
      silent, and the health rule fires. */
  lemma HealthPhraseFiring(t: string)
    requires t == "santé donnée personnelle"
    ensures !Fires(Rules[0], t) && !Fires(Rules[1], t) && Fires(Rules[2], t)
  {
    SurveillanceRuleSilent(t);
    RecruitmentRuleSilent(t);
    assert OccursAt("santé", t, 0);
    assert "santé" in Rules[2].keywords;
  }

  /** Every surveillance keyword holds a 'b', 'c' or 'v'; a text with none of
      these does not fire the surveillance rule. */
  lemma SurveillanceRuleSilent(t: string)
    requires 'b' !in t && 'c' !in t && 'v' !in t
    ensures !Fires(Rules[0], t)
  {
    forall k | k in Rules[0].keywords
      ensures !Occurs(k, t)
    {
      if k == "surveillance" {
        AbsentCharAtBlocksOccurrence(k, t, 3);
      } else if k == "biométrie" {
        AbsentCharAtBlocksOccurrence(k, t, 0);
      } else {
        AbsentCharAtBlocksOccurrence(k, t, 2);
      }
    }
  }

  /** Every recruitment keyword holds a 'b' or 'c'; a text with neither does
      not fire the recruitment rule. */
  lemma RecruitmentRuleSilent(t: string)
    requires 'b' !in t && 'c' !in t
    ensures !Fires(Rules[1], t)
  {
    forall k | k in Rules[1].keywords
      ensures !Occurs(k, t)
    {
      if k == "recrutement" || k == "embauche" {
        AbsentCharAtBlocksOccurrence(k, t, 2);
      } else {
        AbsentCharAtBlocksOccurrence(k, t, 0);
      }
    }
  }
}
