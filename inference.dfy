/**
 * The decision pipeline of `finsort.inference`: the rule engine (`rule_override`), the
 * confidence routing (`_is_low_confidence`), the statistical fallback (`_ml_predict`) over
 * an oracle classifier, and their composition (`predict_category`).
 */
module Inference {
  import opened Wrappers
  import opened Strings
  import opened Cleaner

  // ----- tables -----

  /** One entry of the merchant table: a lower-case key, the tag it implies and its built-in category. */
  datatype Merchant = Merchant(key: string, tag: string, category: string)

  /** The merchant table in dictionary (insertion) order; the first key that occurs wins. */
  const MerchantMap: seq<Merchant> := [
    Merchant("amazon", "ecommerce", "Shopping"),
    Merchant("amzn", "ecommerce", "Shopping"),
    Merchant("amazon marketplace", "ecommerce", "Shopping"),
    Merchant("flipkart", "ecommerce", "Shopping"),
    Merchant("myntra", "ecommerce", "Shopping"),
    Merchant("ajio", "ecommerce", "Shopping"),
    Merchant("meesho", "ecommerce", "Shopping"),
    Merchant("nykaa", "ecommerce", "Shopping"),
    Merchant("paytm", "ecommerce", "Shopping"),
    Merchant("phonepe", "wallet", "Wallet"),
    Merchant("gpay", "wallet", "Wallet"),
    Merchant("google pay", "wallet", "Wallet"),
    Merchant("mobikwik", "wallet", "Wallet"),
    Merchant("zomato", "dining", "Dining"),
    Merchant("swiggy", "dining", "Dining"),
    Merchant("dominos", "dining", "Dining"),
    Merchant("pizzahut", "dining", "Dining"),
    Merchant("starbucks", "coffee_shop", "Food & Dining"),
    Merchant("coffee day", "coffee_shop", "Food & Dining"),
    Merchant("ccd", "coffee_shop", "Food & Dining"),
    Merchant("barista", "coffee_shop", "Food & Dining"),
    Merchant("ola", "transport", "Transport"),
    Merchant("uber", "transport", "Transport"),
    Merchant("hpcl", "fuel", "Fuel"),
    Merchant("indianoil", "fuel", "Fuel"),
    Merchant("bpcl", "fuel", "Fuel"),
    Merchant("netflix", "entertainment", "Entertainment"),
    Merchant("prime video", "entertainment", "Entertainment"),
    Merchant("spotify", "entertainment", "Entertainment"),
    Merchant("bookmyshow", "entertainment", "Entertainment"),
    Merchant("apollo", "pharmacy", "Pharmacy"),
    Merchant("apollopharmacy", "pharmacy", "Pharmacy"),
    Merchant("1mg", "pharmacy", "Pharmacy"),
    Merchant("bigbasket", "grocery", "Groceries"),
    Merchant("grofers", "grocery", "Groceries"),
    Merchant("dmart", "grocery", "Groceries"),
    Merchant("refund", "refund", "Refund"),
    Merchant("reversal", "refund", "Refund")
  ]

  /** Whole tokens that mark a grocery purchase. */
  const GroceryKeywords: set<string> :=
    {"tomato", "potato", "onion", "vegetable", "fruit", "milk", "bread", "eggs", "rice", "atta"}

  // ----- configuration -----

  /**
   * The configuration file, as far as the pipeline reads it: `category_map`,
   * `confidence_threshold` (absent is None) and `per_tag_threshold`. A missing file and a
   * `None` configuration both read as EmptyConfig.
   */
  datatype Config = Config(categoryMap: map<string, string>, confidenceThreshold: Option<real>, perTagThreshold: map<string, real>)

  const EmptyConfig := Config(map[], None, map[])

  /** `category_map.get(tag, fallback)`. */
  function CategoryFor(config: Config, tag: string, fallback: string): string
  {
    if tag in config.categoryMap then config.categoryMap[tag] else fallback
  }

  // ----- rule_override -----

  /** What every rule returns: tag, category, confidence, `low_confidence` and `by_rule`. */
  datatype RuleResult = RuleResult(tag: string, category: string, confidence: real, lowConfidence: bool, byRule: bool)

  /** Index of the first entry of table, from index i on, whose key is a substring of txt; |table| when none is. */
  function FirstMerchantFrom(txt: string, table: seq<Merchant>, i: nat): (k: nat)
    requires i <= |table|
    ensures i <= k <= |table|
    ensures forall j :: i <= j < k ==> !Contains(txt, table[j].key)
    ensures k < |table| ==> Contains(txt, table[k].key)
    decreases |table| - i
  {
    if i == |table| then i
    else if Contains(txt, table[i].key) then i
    else FirstMerchantFrom(txt, table, i + 1)
  }

  function FirstMerchant(txt: string, table: seq<Merchant>): nat
  {
    FirstMerchantFrom(txt, table, 0)
  }

  /** Some token of the list is a grocery keyword: `tokens & GROCERY_KEYWORDS` is non-empty. */
  function HasGroceryToken(tokens: seq<string>): (b: bool)
    ensures b <==> exists i :: 0 <= i < |tokens| && tokens[i] in GroceryKeywords
  {
    if tokens == [] then false
    else tokens[|tokens| - 1] in GroceryKeywords || HasGroceryToken(tokens[..|tokens| - 1])
  }

  /** Every grocery keyword is a single word. */
  lemma GroceryKeywordIsToken(k: string)
    requires k in GroceryKeywords
    ensures IsToken(k)
  {
  }

  lemma HasGroceryTokenAt(tokens: seq<string>, i: nat)
    requires i < |tokens| && tokens[i] in GroceryKeywords
    ensures HasGroceryToken(tokens)
  {
  }

  /** A grocery keyword standing as a whole word, between whitespace or the text's ends, is found by the token test. */
  lemma GroceryWordFound(pre: string, k: string, post: string)
    requires k in GroceryKeywords && SpaceBoundary(pre, k) && SpaceBoundary(k, post)
    ensures HasGroceryToken(Split(pre + k + post))
  {
    GroceryKeywordIsToken(k);
    SplitWholeWordAt(pre, k, post);
    HasGroceryTokenAt(Split(pre + k + post), |Split(pre)|);
  }

  predicate StartsWith(s: string, p: string) { |p| <= |s| && s[..|p|] == p }

  /** The refund condition as written: "refund" or "ref" occurs, or the text starts with "cr ". */
  predicate RefundPattern(txt: string) {
    Contains(txt, "refund") || StartsWith(txt, "cr ") || Contains(txt, "ref")
  }

  function MerchantResult(m: Merchant, config: Config): RuleResult
  {
    RuleResult(m.tag, CategoryFor(config, m.tag, m.category), 0.99, false, true)
  }

  /**
   * `rule_override`: the merchant table first (0.99), then the grocery vocabulary (0.95),
   * then the refund pattern (0.95), otherwise no result.
   */
  function RuleOverride(cleaned: string, config: Config): (r: Option<RuleResult>)
    ensures r.Some? ==> !r.value.lowConfidence && r.value.byRule
    ensures r.Some? ==> r.value.confidence == 0.99 || r.value.confidence == 0.95
    ensures r.Some? && r.value.confidence == 0.99 <==> FirstMerchant(Lower(cleaned), MerchantMap) < |MerchantMap|
  {
    var txt := Lower(cleaned);
    var k := FirstMerchant(txt, MerchantMap);
    if k < |MerchantMap| then Some(MerchantResult(MerchantMap[k], config))
    else if HasGroceryToken(Split(txt)) then
      Some(RuleResult("grocery", CategoryFor(config, "grocery", "Groceries"), 0.95, false, true))
    else if RefundPattern(txt) then
      Some(RuleResult("refund", CategoryFor(config, "refund", "Refund"), 0.95, false, true))
    else None
  }

  /** The search stops exactly at an entry whose key occurs when no earlier key does. */
  lemma {:induction false} FirstMerchantIs(txt: string, table: seq<Merchant>, i: nat, k: nat)
    requires i <= k < |table| && Contains(txt, table[k].key)
    requires forall j :: i <= j < k ==> !Contains(txt, table[j].key)
    ensures FirstMerchantFrom(txt, table, i) == k
    decreases k - i
  {
    if i < k {
      FirstMerchantIs(txt, table, i + 1, k);
    }
  }

  /** When no key of the table occurs, the search runs off its end. */
  lemma {:induction false} FirstMerchantNone(txt: string, table: seq<Merchant>, i: nat)
    requires i <= |table|
    requires forall j :: i <= j < |table| ==> !Contains(txt, table[j].key)
    ensures FirstMerchantFrom(txt, table, i) == |table|
    decreases |table| - i
  {
    if i < |table| {
      FirstMerchantNone(txt, table, i + 1);
    }
  }

  /** First match: the entry chosen is the first, in table order, whose key is a substring of the lower-cased text. */
  lemma RuleOverrideFirstMatch(cleaned: string, config: Config, k: nat)
    requires k < |MerchantMap| && Contains(Lower(cleaned), MerchantMap[k].key)
    requires forall j :: 0 <= j < k ==> !Contains(Lower(cleaned), MerchantMap[j].key)
    ensures RuleOverride(cleaned, config) == Some(RuleResult(MerchantMap[k].tag,
      CategoryFor(config, MerchantMap[k].tag, MerchantMap[k].category), 0.99, false, true))
  {
    FirstMerchantIs(Lower(cleaned), MerchantMap, 0, k);
  }

  /**
   * When no merchant key occurs, grocery fires exactly when some whitespace-separated token
   * is a grocery keyword, refund exactly when grocery does not and the refund pattern holds,
   * and otherwise there is no result.
   */
  lemma RuleOverrideFallThrough(cleaned: string, config: Config)
    requires forall j :: 0 <= j < |MerchantMap| ==> !Contains(Lower(cleaned), MerchantMap[j].key)
    ensures var r := RuleOverride(cleaned, config);
      var grocery := HasGroceryToken(Split(Lower(cleaned)));
      && (grocery ==> r == Some(RuleResult("grocery", CategoryFor(config, "grocery", "Groceries"), 0.95, false, true)))
      && (!grocery && RefundPattern(Lower(cleaned)) ==> r == Some(RuleResult("refund", CategoryFor(config, "refund", "Refund"), 0.95, false, true)))
      && (r.None? <==> !grocery && !RefundPattern(Lower(cleaned)))
  {
    FirstMerchantNone(Lower(cleaned), MerchantMap, 0);
  }

  /**
   * With no merchant key in the text, a grocery keyword that stands as a whole word
   * makes the rules answer `grocery` at 0.95.
   */
  lemma GroceryWordTriggersRule(cleaned: string, config: Config, pre: string, k: string, post: string)
    requires forall j :: 0 <= j < |MerchantMap| ==> !Contains(Lower(cleaned), MerchantMap[j].key)
    requires Lower(cleaned) == pre + k + post
    requires k in GroceryKeywords && SpaceBoundary(pre, k) && SpaceBoundary(k, post)
    ensures RuleOverride(cleaned, config) == Some(RuleResult("grocery", CategoryFor(config, "grocery", "Groceries"), 0.95, false, true))
  {
    GroceryWordFound(pre, k, post);
    RuleOverrideFallThrough(cleaned, config);
  }

  /** A key that contains an earlier key of the table can never be the one selected. */
  lemma Shadowed(txt: string, table: seq<Merchant>, early: nat, late: nat)
    requires early < late < |table| && Contains(table[late].key, table[early].key)
    ensures FirstMerchant(txt, table) != late
  {
    if FirstMerchant(txt, table) == late {
      ContainsTrans(txt, table[late].key, table[early].key);
    }
  }

  /** "amazon marketplace" is shadowed by "amazon", and "apollopharmacy" by "apollo": neither entry is ever chosen. */
  lemma ShadowedEntries(txt: string)
    ensures FirstMerchant(txt, MerchantMap) != 2
    ensures FirstMerchant(txt, MerchantMap) != 31
  {
    MarketplaceKeyHoldsAmazon();
    Shadowed(txt, MerchantMap, 0, 2);
    PharmacyKeyHoldsApollo();
    Shadowed(txt, MerchantMap, 30, 31);
  }

  lemma MarketplaceKeyHoldsAmazon()
    ensures Contains(MerchantMap[2].key, MerchantMap[0].key)
  {
    var long, short := MerchantMap[2].key, MerchantMap[0].key;
    assert long == "amazon marketplace" && short == "amazon";
    assert long[0..6] == short;
    assert OccursAt(long, short, 0);
  }

  lemma PharmacyKeyHoldsApollo()
    ensures Contains(MerchantMap[31].key, MerchantMap[30].key)
  {
    var long, short := MerchantMap[31].key, MerchantMap[30].key;
    assert long == "apollopharmacy" && short == "apollo";
    assert long[0..6] == short;
    assert OccursAt(long, short, 0);
  }

  /** A text containing "refund" is caught by the merchant table at 0.99, never by the 0.95 refund branch. */
  lemma RefundHitsMerchantTable(cleaned: string, config: Config)
    requires Contains(Lower(cleaned), "refund")
    ensures RuleOverride(cleaned, config).Some?
    ensures RuleOverride(cleaned, config).value.confidence == 0.99
  {
    assert MerchantMap[36].key == "refund";
    assert FirstMerchant(Lower(cleaned), MerchantMap) <= 36;
  }

  /** Since "refund" contains "ref", the refund pattern is just: "ref" occurs or the text starts with "cr ". */
  lemma RefundPatternSimplified(txt: string)
    ensures RefundPattern(txt) <==> Contains(txt, "ref") || StartsWith(txt, "cr ")
  {
    if Contains(txt, "refund") {
      assert OccursAt("refund", "ref", 0);
      ContainsTrans(txt, "refund", "ref");
    }
  }

  /** A tag present in `category_map` always reports the configured category. */
  lemma RuleCategoryConfigured(cleaned: string, config: Config)
    ensures var r := RuleOverride(cleaned, config);
      r.Some? && r.value.tag in config.categoryMap ==> r.value.category == config.categoryMap[r.value.tag]
  {
  }

  /** Without a configured category, a merchant hit reports the category of its table entry. */
  lemma RuleCategoryDefault(cleaned: string, config: Config)
    ensures var r := RuleOverride(cleaned, config);
      var k := FirstMerchant(Lower(cleaned), MerchantMap);
      k < |MerchantMap| && MerchantMap[k].tag !in config.categoryMap ==> r.value.category == MerchantMap[k].category
  {
  }

  // ----- _is_low_confidence -----

  /** The threshold for a tag: its per-tag value, else the global `confidence_threshold`, else 0.60. */
  function Threshold(tag: string, config: Config): real
  {
    if tag in config.perTagThreshold then config.perTagThreshold[tag]
    else match config.confidenceThreshold
      case Some(t) => t
      case None => 0.60
  }

  /** `_is_low_confidence`: total, and true exactly when the confidence is below the tag's threshold. */
  function IsLowConfidence(tag: string, confidence: real, config: Config): (low: bool)
    ensures tag in config.perTagThreshold ==> (low <==> confidence < config.perTagThreshold[tag])
    ensures tag !in config.perTagThreshold && config.confidenceThreshold.Some? ==> (low <==> confidence < config.confidenceThreshold.value)
    ensures tag !in config.perTagThreshold && config.confidenceThreshold.None? ==> (low <==> confidence < 0.60)
  {
    confidence < Threshold(tag, config)
  }

  /** Raising the confidence never turns an accepted prediction into a low-confidence one. */
  lemma LowConfidenceMonotone(tag: string, c1: real, c2: real, config: Config)
    requires c1 <= c2 && !IsLowConfidence(tag, c1, config)
    ensures !IsLowConfidence(tag, c2, config)
  {
  }

  /** A per-tag threshold makes the global threshold irrelevant for that tag. */
  lemma PerTagOverridesGlobal(tag: string, confidence: real, config: Config, global: Option<real>)
    requires tag in config.perTagThreshold
    ensures IsLowConfidence(tag, confidence, config) == IsLowConfidence(tag, confidence, config.(confidenceThreshold := global))
  {
  }

  // ----- _ml_predict -----

  /** The fitted vectorizer, reduced to its `transform` of one text. */
  datatype Vectorizer = Vectorizer(transform: string -> seq<real>)

  /** The fitted classifier: `classes_` when it has that attribute, and `predict_proba` of one feature row. */
  datatype Classifier = Classifier(classes: Option<seq<string>>, predictProba: seq<real> -> seq<real>)

  /** What `_load` leaves in the module globals: model and vectorizer when their files exist, and the configuration. */
  datatype Resources = Resources(model: Option<Classifier>, vectorizer: Option<Vectorizer>, config: Config)

  /** A probability vector as a classifier produces it: non-empty, entries in [0, 1], one per class. */
  predicate ProbabilitiesOk(probs: seq<real>, classes: Option<seq<string>>) {
    |probs| > 0
    && (forall i :: 0 <= i < |probs| ==> 0.0 <= probs[i] <= 1.0)
    && (classes.Some? ==> |classes.value| == |probs|)
  }

  /** The classifier produces a well-formed probability vector for every text. */
  ghost predicate OracleOk(res: Resources) {
    res.model.Some? && res.vectorizer.Some? ==>
      forall s :: ProbabilitiesOk(res.model.value.predictProba(res.vectorizer.value.transform(s)), res.model.value.classes)
  }

  /** `np.argmax`: the first index of a maximal entry. */
  function ArgMax(probs: seq<real>): (i: nat)
    requires |probs| > 0
    ensures i < |probs|
    ensures forall j :: 0 <= j < |probs| ==> probs[j] <= probs[i]
    ensures forall j :: 0 <= j < i ==> probs[j] < probs[i]
  {
    if |probs| == 1 then 0
    else
      var k := ArgMax(probs[..|probs| - 1]);
      if probs[|probs| - 1] > probs[k] then |probs| - 1 else k
  }

  /** The first index of a maximum is unique: any index with both properties is ArgMax. */
  lemma ArgMaxUnique(probs: seq<real>, i: nat)
    requires i < |probs|
    requires forall j :: 0 <= j < |probs| ==> probs[j] <= probs[i]
    requires forall j :: 0 <= j < i ==> probs[j] < probs[i]
    ensures ArgMax(probs) == i
  {
  }

  function DigitChar(d: nat): char
    requires d < 10
  {
    ('0' as int + d) as char
  }

  /** `str(n)` for a natural number: its decimal digits, without leading zeros. */
  function NatToString(n: nat): (s: string)
    ensures |s| > 0 && forall i :: 0 <= i < |s| ==> IsDigit(s[i])
    ensures s[0] == '0' ==> n == 0 && s == "0"
  {
    if n < 10 then [DigitChar(n)] else NatToString(n / 10) + [DigitChar(n % 10)]
  }

  /** The value of a string of decimal digits. */
  function ParseNat(s: string): nat
    requires forall i :: 0 <= i < |s| ==> IsDigit(s[i])
  {
    if s == [] then 0
    else
      assert IsDigit(s[|s| - 1]);
      10 * ParseNat(s[..|s| - 1]) + (s[|s| - 1] as int - '0' as int)
  }

  /** `str` is faithful: reading the digits back gives the index. */
  lemma {:induction false} ParseNatToString(n: nat)
    ensures ParseNat(NatToString(n)) == n
  {
    if n >= 10 {
      var s := NatToString(n);
      assert s[..|s| - 1] == NatToString(n / 10);
      ParseNatToString(n / 10);
    }
  }

  /** The part of `_ml_predict`'s result that the caller uses. */
  datatype MlResult = MlResult(tag: string, category: string, confidence: real, lowConfidence: bool)

  /**
   * `_ml_predict`: no result without a model and a vectorizer; otherwise the class at the
   * first index of maximal probability, that probability as confidence, the configured
   * category (the tag itself when there is none) and the low-confidence flag.
   */
  function MlPredict(cleaned: string, res: Resources): (r: Option<MlResult>)
    requires OracleOk(res)
    ensures r.None? <==> res.model.None? || res.vectorizer.None?
    ensures r.Some? ==> 0.0 <= r.value.confidence <= 1.0
    ensures r.Some? ==> r.value.lowConfidence == IsLowConfidence(r.value.tag, r.value.confidence, res.config)
    ensures r.Some? && r.value.tag !in res.config.categoryMap ==> r.value.category == r.value.tag
    ensures r.Some? && r.value.tag in res.config.categoryMap ==> r.value.category == res.config.categoryMap[r.value.tag]
  {
    if res.model.None? || res.vectorizer.None? then None
    else
      var model := res.model.value;
      var probs := model.predictProba(res.vectorizer.value.transform(cleaned));
      assert ProbabilitiesOk(probs, model.classes);
      var idx := ArgMax(probs);
      var tag := match model.classes
        case Some(classes) => classes[idx]
        case None => NatToString(idx);
      var confidence := probs[idx];
      Some(MlResult(tag, CategoryFor(res.config, tag, tag), confidence, IsLowConfidence(tag, confidence, res.config)))
  }

  /**
   * The statistical tag is the class with the highest probability, the earliest one on ties;
   * a model without `classes_` reports that index in decimal.
   */
  lemma MlPredictPicksMaximum(cleaned: string, res: Resources)
    requires OracleOk(res) && res.model.Some? && res.vectorizer.Some?
    ensures var probs := res.model.value.predictProba(res.vectorizer.value.transform(cleaned));
      var r := MlPredict(cleaned, res);
      exists i :: 0 <= i < |probs| && r.value.confidence == probs[i]
        && (res.model.value.classes.Some? ==> i < |res.model.value.classes.value| && r.value.tag == res.model.value.classes.value[i])
        && (res.model.value.classes.None? ==> r.value.tag == NatToString(i))
        && (forall j :: 0 <= j < |probs| ==> probs[j] <= probs[i])
        && (forall j :: 0 <= j < i ==> probs[j] < probs[i])
  {
    var probs := res.model.value.predictProba(res.vectorizer.value.transform(cleaned));
    assert ProbabilitiesOk(probs, res.model.value.classes);
    var i := ArgMax(probs);
    var tag := MlPredict(cleaned, res).value.tag;
    assert res.model.value.classes.Some? ==> tag == res.model.value.classes.value[i];
    assert res.model.value.classes.None? ==> tag == NatToString(i);
  }

  // ----- predict_category -----

  /** The dictionary `predict_category` returns; `by_rule` is false where the source leaves the key out. */
  datatype Prediction = Prediction(raw: string, cleaned: string, tag: string, category: string,
                                   confidence: real, lowConfidence: bool, byRule: bool)

  /** `raw_text or ""`. */
  function RawOrEmpty(rawText: Option<string>): string
  {
    match rawText
    case Some(s) => s
    case None => ""
  }

  /** How `predict_category` assembles its answer once the rules have given rule. */
  function Assemble(raw: string, cleaned: string, rule: Option<RuleResult>, res: Resources): (p: Prediction)
    requires OracleOk(res)
    ensures p.raw == raw && p.cleaned == cleaned
    ensures p.byRule <==> rule.Some?
    ensures rule.Some? ==>
      (p.tag == rule.value.tag && p.category == rule.value.category
       && p.confidence == rule.value.confidence && p.lowConfidence == rule.value.lowConfidence)
    ensures rule.None? && MlPredict(cleaned, res).None? ==>
      (p.tag == "unknown" && p.category == "Unknown" && p.confidence == 0.0 && p.lowConfidence)
    ensures rule.None? && MlPredict(cleaned, res).Some? ==>
      (var ml := MlPredict(cleaned, res).value;
       p.tag == ml.tag && p.category == ml.category && p.confidence == ml.confidence && p.lowConfidence == ml.lowConfidence)
  {
    match rule
    case Some(r) => Prediction(raw, cleaned, r.tag, r.category, r.confidence, r.lowConfidence, true)
    case None =>
      match MlPredict(cleaned, res)
      case None => Prediction(raw, cleaned, "unknown", "Unknown", 0.0, true, false)
      case Some(ml) => Prediction(raw, cleaned, ml.tag, ml.category, ml.confidence, ml.lowConfidence, false)
  }

  /**
   * `predict_category` once `_load` has produced res: clean the text, let the rules see its
   * normalised form, and consult the classifier only when no rule fires.
   */
  function PredictCategory(rawText: Option<string>, res: Resources): (p: Prediction)
    requires AllAscii(RawOrEmpty(rawText))
    requires OracleOk(res)
    ensures p.raw == RawOrEmpty(rawText) && p.cleaned == Clean(p.raw)
    ensures p.byRule <==> RuleOverride(NormalizeForRules(p.cleaned), res.config).Some?
    ensures p.byRule ==> !p.lowConfidence && (p.confidence == 0.99 || p.confidence == 0.95)
    ensures p.byRule ==>
      (var r := RuleOverride(NormalizeForRules(p.cleaned), res.config).value;
       p.tag == r.tag && p.category == r.category && p.confidence == r.confidence)
    ensures 0.0 <= p.confidence <= 1.0
    ensures !p.byRule && (res.model.None? || res.vectorizer.None?) ==>
      p.tag == "unknown" && p.category == "Unknown" && p.confidence == 0.0 && p.lowConfidence
    ensures !p.byRule && res.model.Some? && res.vectorizer.Some? ==>
      (var ml := MlPredict(p.cleaned, res);
       ml.Some? && p.tag == ml.value.tag && p.category == ml.value.category
       && p.confidence == ml.value.confidence && p.lowConfidence == ml.value.lowConfidence)
  {
    var raw := RawOrEmpty(rawText);
    var cleaned := Clean(raw);
    Assemble(raw, cleaned, RuleOverride(NormalizeForRules(cleaned), res.config), res)
  }

  /** When a rule fires, the prediction does not depend on the model or the vectorizer at all. */
  lemma RulePathIgnoresModel(rawText: Option<string>, res1: Resources, res2: Resources)
    requires AllAscii(RawOrEmpty(rawText)) && OracleOk(res1) && OracleOk(res2)
    requires res1.config == res2.config
    requires RuleOverride(NormalizeForRules(Clean(RawOrEmpty(rawText))), res1.config).Some?
    ensures PredictCategory(rawText, res1) == PredictCategory(rawText, res2)
  {
    var cleaned := Clean(RawOrEmpty(rawText));
    var rule := RuleOverride(NormalizeForRules(cleaned), res1.config);
    assert PredictCategory(rawText, res1) == Assemble(RawOrEmpty(rawText), cleaned, rule, res1);
    assert PredictCategory(rawText, res2) == Assemble(RawOrEmpty(rawText), cleaned, rule, res2);
  }
}
