/** The article store of `knowledge.js`: a fixed table from article id to
    article record, and the total lookup `getArticleById` with its fallback. */
module KnowledgeBase {

  type ArticleId = string

  /** The three importance labels used by the store. */
  datatype Importance = Haute | Moyenne | Basse {
    /** The label as written in the records. */
    function Label(): string {
      match this
      case Haute => "haute"
      case Moyenne => "moyenne"
      case Basse => "basse"
    }
  }

  datatype Article = Article(
    id: ArticleId,
    law: string,
    title: string,
    content: Body,
    category: string,
    importance: Importance)

  const NotFoundId: ArticleId := "not_found"

  /** Which body text a record carries. The texts are kept out of the
      records so that reasoning about the store never unfolds them. */
  datatype Body = NotFoundBody | AiAct5 | AiAct6 | Rgpd22 | Rgpd9 | AiAct13 | Rgpd5 {
    /** The full text of the body. */
    function Text(): string {
      match this
      case NotFoundBody => "Les informations détaillées sur cet article seront bientôt disponibles dans notre base de connaissances mise à jour régulièrement."
      case AiAct5 => "Les pratiques d'IA suivantes sont interdites : la sublimation ou la manipulation des comportements, l'exploitation des vulnérabilités, la surveillance généralisée, le scoring social par les autorités publiques. Ces systèmes sont considérés comme présentant un risque inacceptable pour la sécurité, les moyens de subsistance et les droits des personnes."
      case AiAct6 => "Classification en 4 catégories de risque : 1) Risque inacceptable (interdiction), 2) Risque élevé (conformité stricte + évaluation), 3) Risque limité (transparence obligatoire), 4) Risque minime (pas de régulation spécifique). Les systèmes de recrutement, crédit scoring, et justice pénale sont généralement classés haut risque."
      case Rgpd22 => "Toute personne a le droit de ne pas faire l'objet d'une décision fondée exclusivement sur un traitement automatisé, y compris le profilage, produisant des effets juridiques la concernant ou l'affectant de manière significative. Des exceptions existent avec des garanties appropriées (consentement explicite, contrat)."
      case Rgpd9 => "Le traitement des données personnelles révélant l'origine raciale ou ethnique, les opinions politiques, les convictions religieuses ou philosophiques, l'appartenance syndicale, ainsi que le traitement des données génétiques, des données biométriques aux fins d'identifier une personne physique de manière unique, des données concernant la santé ou des données concernant la vie sexuelle ou l'orientation sexuelle d'une personne physique est interdit, sauf exceptions spécifiques énumérées."
      case AiAct13 => "Les fournisseurs de systèmes d'IA à haut risque doivent établir une documentation technique complète avant la mise sur le marché. Cette documentation doit permettre aux autorités d'évaluer la conformité du système avec les exigences du règlement AI Act."
      case Rgpd5 => "Les données personnelles doivent être : traitées de manière licite, loyale et transparente ; collectées pour des finalités déterminées, explicites et légitimes ; adéquates, pertinentes et limitées ; exactes et tenues à jour ; conservées sous une forme permettant l'identification des personnes pendant une durée n'excédant pas celle nécessaire ; traitées de manière à garantir une sécurité appropriée."
    }
  }

  /** The record returned for an id the store does not hold. */
  const Fallback := Article(
    NotFoundId,
    "Information",
    "Article non trouvé",
    NotFoundBody,
    "À venir",
    Basse)

  const Store: map<ArticleId, Article> := map[
    "ai_act_article_5" := Article(
      "ai_act_article_5", "AI Act", "Systèmes d'IA interdits",
      AiAct5,
      "Interdiction", Haute),
    "ai_act_article_6" := Article(
      "ai_act_article_6", "AI Act", "Classification des systèmes d'IA à haut risque",
      AiAct6,
      "Classification", Haute),
    "rgpd_article_22" := Article(
      "rgpd_article_22", "RGPD", "Décision individuelle automatisée",
      Rgpd22,
      "Droits des personnes", Moyenne),
    "rgpd_article_9" := Article(
      "rgpd_article_9", "RGPD", "Traitement des catégories particulières de données",
      Rgpd9,
      "Données sensibles", Haute),
    "ai_act_article_13" := Article(
      "ai_act_article_13", "AI Act", "Documentation technique",
      AiAct13,
      "Conformité technique", Moyenne),
    "rgpd_article_5" := Article(
      "rgpd_article_5", "RGPD", "Principes relatifs au traitement des données",
      Rgpd5,
      "Principes fondamentaux", Haute)
  ]

  /** Every record is filed under its own id, and no record uses the fallback id. */
  ghost predicate WellKeyed(store: map<ArticleId, Article>) {
    && (forall k :: k in store ==> store[k].id == k)
    && NotFoundId !in store
  }

  lemma StoreIsWellKeyed()
    ensures WellKeyed(Store)
  {
  }

  /** `getArticleById`: the stored record, or the fallback for any other id. */
  function GetArticleById(id: ArticleId): (r: Article)
    ensures r.id != NotFoundId <==> id in Store
    ensures r.id == id || r == Fallback
    ensures id in Store ==> r == Store[id]
    ensures id !in Store ==> r == Fallback
  {
    StoreIsWellKeyed();
    if id in Store then Store[id] else Fallback
  }

  /** Looking up a stored id and then looking up the record's own id is a
      fixed point: the lookup hands back a record whose id finds it again. */
  lemma {:induction false} LookupRoundTrip(id: ArticleId)
    requires id in Store
    ensures GetArticleById(GetArticleById(id).id) == GetArticleById(id)
    ensures GetArticleById(id).id == id
  {
    StoreIsWellKeyed();
  }

  /** Property names that every plain JavaScript object inherits from
      `Object.prototype`; each of them reads as a truthy value. */
  const InheritedNames: set<string> := {
    "constructor", "hasOwnProperty", "isPrototypeOf", "propertyIsEnumerable",
    "toLocaleString", "toString", "valueOf", "__proto__",
    "__defineGetter__", "__defineSetter__", "__lookupGetter__", "__lookupSetter__"
  }

  /** What `knowledgeBase[id] || fallback` evaluates to in JavaScript. */
  datatype LookupValue =
    | Record(article: Article)
    | InheritedMember(name: string)

  /** `getArticleById` as written: an index into a plain object literal, so an
      inherited property name yields that (truthy) inherited member rather than
      the fallback record. */
  function GetArticleByIdAsWritten(id: ArticleId): (v: LookupValue)
    ensures v.InheritedMember? <==> id !in Store && id in InheritedNames
    ensures v.Record? ==> v.article == GetArticleById(id)
  {
    if id in Store then Record(Store[id])
    else if id in InheritedNames then InheritedMember(id)
    else Record(Fallback)
  }

  /** The as-written lookup is not total over records: `"toString"` is not a
      stored id, yet it does not produce the fallback record. */
  lemma InheritedNameMissesFallback()
    ensures "toString" !in Store
    ensures GetArticleByIdAsWritten("toString") != Record(Fallback)
    ensures GetArticleById("toString") == Fallback
  {
  }
}
