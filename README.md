# finsort: transaction text normalisation, rule/model routing and feedback merging

finsort puts bank-statement strings into spending categories. A raw string such as
`"AMZN MKTP AY12B3 *PRIME"` is first cleaned into a canonical lower-case text. The text then
goes through a small rule engine: an ordered merchant table, a grocery vocabulary and a
refund pattern. Only when no rule fires is a trained classifier consulted, and its
confidence is checked against configurable thresholds. Human corrections are appended to a
feedback log. A script turns that log into a table, and a second script merges the table
into the training corpus, removing duplicates while keeping the last occurrence.

This project models that pipeline in Dafny and proves what each step promises.

- `wrappers.dfy`: `Option`.
- `strings.dfy`: the Python string primitives the pipeline relies on:
  - `str.isspace` whitespace;
  - `strip`, `split` and substring search;
  - ASCII `lower`.
- `rewrites.dfy`: `re.sub` with a word-bounded literal pattern (`\bLIT\b`, and
  alternatives tried in the regex engine's order), and a table of such rules applied in order.
- `cleaner.dfy`: `clean_transaction` and `normalize_for_rules` (`finsort/cleaner.py`).
- `inference.dfy`: the merchant table, the grocery vocabulary, `rule_override`,
  `_is_low_confidence`, `_ml_predict` and `predict_category` (`finsort/inference.py`).
  The classifier and the vectorizer are oracle functions in a `Resources` value, and the
  configuration is a `Config` value. Together they stand for what `_load` leaves in the
  module globals.
- `feedback_ingest.dfy`: `load_feedback_entries`, `normalize` and `main` of
  `scripts/feedback_ingest.py`. The log is a list of lines (None when the file does not
  exist), and `json.loads` is a parse oracle that yields None on invalid JSON.
- `merge_feedback.dfy`: `feedback_to_train_rows` and `main` of
  `scripts/merge_feedback_to_train.py`. CSV records are string maps, where the empty
  string is an empty cell. `drop_duplicates(subset=["transaction","category"], keep="last")`
  is a recursive function, and its uniqueness, order, last-occurrence, idempotence and
  concatenation laws are proved.

Where the documented behaviour and the code disagree, the model follows the code:

- Duplicates are removed on the pair (transaction, category), not on the transaction alone.
  So two corrections of one transaction to different categories both stay
  (`MergeFeedback.DistinctCategoriesSurvive`).
- The canonical text can be empty for non-blank input. For example, `"TXN"` is a noise token
  and cleans to `""`.
- The refund rule fires on the substring `ref` anywhere in the text, not only on a `ref`
  token (`Inference.RefundPatternSimplified`). Because `"refund"` is also a merchant key, a
  text containing it always hits the merchant table at 0.99
  (`Inference.RefundHitsMerchantTable`).
- The entries `"amazon marketplace"` and `"apollopharmacy"` of the merchant table can never
  be selected, because the earlier keys `"amazon"` and `"apollo"` are substrings of them
  (`Inference.ShadowedEntries`).

## Model

| member | source | states |
|---|---|---|
| Cleaner.CleanTransaction | finsort/cleaner.py:19-81 | the eight steps (falsy input gives "", control removal, lower-casing, alias table, noise table, long digit runs, special characters, separators, whitespace) compute exactly `Clean(text)` |
| Rewrites.RewriteTable | finsort/cleaner.py:56-57 | the loop over a rule table applies every rule in table order, each to the previous result |
| Cleaner.CleanBlank | finsort/cleaner.py:19-20 | empty input, and input made only of whitespace, cleans to the empty string |
| Cleaner.CleanSpacing | finsort/cleaner.py:79 | the canonical text has no whitespace at either end, never two whitespace characters in a row, and only plain spaces |
| Cleaner.CleanDigits | finsort/cleaner.py:70 | the canonical text holds no six consecutive digits |
| Cleaner.DropLongDigitRunsShort | finsort/cleaner.py:70 | after the digit step no run of six or more digits is left |
| Cleaner.DropLongDigitRunsKeepsShort | finsort/cleaner.py:70 | a text whose digit runs are all five or shorter passes the digit step unchanged (so "2kg" and "77882" stay) |
| Cleaner.DropLongDigitRunsIdempotent | finsort/cleaner.py:70 | removing long digit runs twice gives the same as once |
| Cleaner.LongRunIsSpace | finsort/cleaner.py:70 | a run of six or more digits becomes exactly one space, not nothing |
| Cleaner.DropLongDigitRunsSplit | finsort/cleaner.py:70 | a non-digit character ends every digit run: the two sides are rewritten independently and the character is kept between them; with the two lemmas above this determines the step on every input |
| Cleaner.LongRunBetween | finsort/cleaner.py:70 | a long run between two non-digits becomes one space between them, so "a1234567b" gives "a b" |
| Cleaner.ReplaceSpecial | finsort/cleaner.py:73 | the length is kept; each special character of the step-6 class becomes a space, every other character stays where it was, so none of the class is left |
| Cleaner.ReplaceSpecialShort | finsort/cleaner.py:73 | replacing special characters keeps every digit run as short as it was |
| Cleaner.CollapseRunsNoAdjacent | finsort/cleaner.py:76-79 | after collapsing, no two neighbouring characters belong to the collapsed class |
| Cleaner.CleanCharacters | finsort/cleaner.py:25-76 | for ASCII input, the canonical text has no upper-case letter, control character, special character or separator |
| Cleaner.RemoveControl | finsort/cleaner.py:25-26 | only characters of the input are kept, no control character is among them, every other character of the input still occurs in the result, and a text without control characters comes back unchanged |
| Cleaner.RemoveControlAppend | finsort/cleaner.py:25-26 | removing control characters from a concatenation removes them from each part and keeps the parts in order, so together with the single-character cases the kept characters keep their order and multiplicity |
| Cleaner.TablesWordLed | finsort/cleaner.py:32-67 | every alternative of both tables starts with a word character |
| Cleaner.TablesLowerPlain | finsort/cleaner.py:32-67 | alias replacements are lower-case letters and spaces; every noise replacement is a single space |
| Cleaner.AliasesInOrder | finsort/cleaner.py:33-37 | "amzn mktp" becomes "amazon mktp" under `amzn`, which `amzn mk?tp` then no longer matches, and `mktp` turns it into "amazon marketplace" |
| Cleaner.AliasTableOnAmznMktp | finsort/cleaner.py:32-57 | the whole alias table, run in order, turns "amzn mktp" into "amazon marketplace": only the `amzn` and `mktp` rules change it |
| Cleaner.AliasesKeepCoffee | finsort/cleaner.py:32-57 | "coffee" passes the whole alias table unchanged: no alias fires inside a longer word |
| Rewrites.WordUnchanged | finsort/cleaner.py:56-57 | a word that is not one of a rule's alternatives is left alone by that word-bounded rewrite |
| Rewrites.RewriteAllKeepsWord | finsort/cleaner.py:56-57 | the same for a whole table of rules |
| Rewrites.RewriteAllChars | finsort/cleaner.py:56-67 | a rule table brings in no character other than those of its replacement texts |
| Cleaner.NoiseKeepsNeighboursApart | finsort/cleaner.py:60-67 | a noise token becomes a space, so "a txn b" keeps "a" and "b" apart |
| Cleaner.NoiseTableOnTxn | finsort/cleaner.py:60-67 | the whole noise list, run in order, turns "a txn b" into "a   b": only `txn` occurs, and no later token matches |
| Cleaner.PrepositionCut | finsort/cleaner.py:90 | the prefix removed is non-empty exactly when the text starts with "to" or "for" and whitespace; it takes the whole whitespace run |
| Cleaner.FindSuffix | finsort/cleaner.py:91 | no suffix is found exactly when no corporate suffix, preceded by whitespace, ends the text (before an optional final newline) |
| Cleaner.SuffixCutMatches | finsort/cleaner.py:91 | the cut removes a matching suffix together with its whole whitespace run, and cuts nothing when none matches |
| Cleaner.NormalizeForRules | finsort/cleaner.py:87-88 | empty input gives the empty string |
| Cleaner.NormalizeStripped | finsort/cleaner.py:92 | the rule text has no whitespace at either end |
| Cleaner.NormalizeIsSubstring | finsort/cleaner.py:83-93 | the rule text is a contiguous piece of the canonical text |
| Cleaner.NormalizeKeeps | finsort/cleaner.py:83-93 | a stripped text without a leading preposition and without a trailing suffix is returned unchanged |
| Inference.FirstMerchantFrom | finsort/inference.py:89-90 | the index found is the first whose key is a substring of the text, or the table's length when no key is |
| Inference.HasGroceryToken | finsort/inference.py:101-102 | true exactly when some whitespace-separated token is a grocery keyword |
| Strings.SplitTokens | finsort/inference.py:101 | every token of `str.split()` is non-empty and holds no whitespace |
| Strings.SplitConcat | finsort/inference.py:101 | the tokens of `str.split()`, joined, are the text with its whitespace removed: nothing else is lost or added |
| Strings.SplitWord | finsort/inference.py:101 | a non-empty text without whitespace splits into itself alone |
| Strings.SplitCons | finsort/inference.py:101 | a word followed by whitespace is split off whole, as the first token |
| Strings.SplitAppend | finsort/inference.py:101 | splitting distributes over a concatenation whose seam is whitespace (or an empty side): no token spans the seam |
| Strings.SplitWholeWord | finsort/inference.py:101 | a word with whitespace or the text's ends on both sides is a token of its own, between the tokens of what precedes and follows it |
| Inference.GroceryWordFound | finsort/inference.py:101-102 | a grocery keyword standing as a whole word makes the token test true |
| Inference.GroceryWordTriggersRule | finsort/inference.py:100-110 | with no merchant key in the text, a whole-word grocery keyword makes the rules answer `grocery` at 0.95 with the configured or default category |
| Inference.RuleOverride | finsort/inference.py:80-123 | every result is flagged by rule, not low-confidence, with confidence 0.99 or 0.95; it is 0.99 exactly when a merchant key occurs |
| Inference.RuleOverrideFirstMatch | finsort/inference.py:89-98 | the first merchant key in table order that occurs decides tag and category (configured, else the table's), at 0.99 |
| Inference.RuleOverrideFallThrough | finsort/inference.py:100-123 | with no merchant key, grocery fires exactly on a grocery token, refund exactly when grocery does not and the refund pattern holds, otherwise None |
| Inference.ShadowedEntries | finsort/inference.py:27-65 | the entries "amazon marketplace" and "apollopharmacy" are never the match selected |
| Inference.RefundHitsMerchantTable | finsort/inference.py:72 | a text containing "refund" is answered by the merchant table at 0.99 |
| Inference.RefundPatternSimplified | finsort/inference.py:113 | the refund condition is equivalent to: "ref" occurs or the text starts with "cr " |
| Inference.RuleCategoryConfigured | finsort/inference.py:86-91 | a rule tag present in `category_map` reports the configured category |
| Inference.RuleCategoryDefault | finsort/inference.py:91 | without a configured category, a merchant hit reports its table entry's category |
| Inference.IsLowConfidence | finsort/inference.py:159-163 | low exactly when the confidence is below the per-tag threshold, else the global one, else 0.60 |
| Inference.LowConfidenceMonotone | finsort/inference.py:163 | a higher confidence is never low when a lower one is not |
| Inference.PerTagOverridesGlobal | finsort/inference.py:160-162 | a per-tag threshold makes the global threshold irrelevant for that tag |
| Inference.ArgMax | finsort/inference.py:176 | the index holds a maximal probability, and no earlier index holds as much |
| Inference.ArgMaxUnique | finsort/inference.py:176 | any index holding a maximum with no earlier index as large is the arg-max: the first maximum is unique |
| Inference.NatToString | finsort/inference.py:177 | `str(idx)` is a non-empty string of decimal digits without a leading zero (except "0") |
| Inference.ParseNatToString | finsort/inference.py:177 | `str(idx)` is decimal: reading the digits back gives idx |
| Inference.MlPredict | finsort/inference.py:165-183 | no result exactly without model or vectorizer; confidence in [0, 1]; the flag is `_is_low_confidence`; a mapped tag gets its `category_map` entry, an unmapped tag is its own category |
| Inference.MlPredictPicksMaximum | finsort/inference.py:174-178 | the confidence is the probability at the first index of maximal probability; the tag is the class at that index, or the index written in decimal when the model has no class list |
| Inference.Assemble | finsort/inference.py:197-231 | a rule result is passed through by rule; otherwise the classifier's result, or the `unknown` sentinel when there is none |
| Inference.PredictCategory | finsort/inference.py:185-231 | raw is the input or "", cleaned is its canonical text; by rule exactly when a rule fires on the rule text, and then tag, category and confidence are that rule's; otherwise the classifier decides, or the sentinel `unknown`/`Unknown`/0.0/low without a model |
| Inference.RulePathIgnoresModel | finsort/inference.py:197-208 | when a rule fires, the prediction does not depend on the model or the vectorizer |
| FeedbackIngest.LoadFeedbackEntries | scripts/feedback_ingest.py:10-25 | a missing log gives no entries; otherwise the entries are those of `ParsedEntries` on the lines |
| FeedbackIngest.LineEntry | scripts/feedback_ingest.py:17-24 | a line contributes at most one entry; none exactly when it is blank after stripping or does not parse, otherwise the parse of the stripped line |
| FeedbackIngest.ParsedEntriesInOrder | scripts/feedback_ingest.py:16-25 | the entries are each line's own entry, concatenated in file order |
| FeedbackIngest.SkippedLine | scripts/feedback_ingest.py:18-24 | a line that is blank after stripping, or does not parse, changes nothing wherever it stands |
| FeedbackIngest.ParsedEntriesAppend | scripts/feedback_ingest.py:16-25 | reading a log in two parts gives the entries of the first part followed by those of the second |
| FeedbackIngest.ParsedEntriesBound | scripts/feedback_ingest.py:16-25 | there are never more entries than lines |
| FeedbackIngest.Or | scripts/feedback_ingest.py:33-34 | `a or b` is truthy exactly when either is, and is a when a is truthy, else b |
| FeedbackIngest.RowOf | scripts/feedback_ingest.py:30-37 | raw, cleaned, confidence and corrected category are copied (None when absent); predicted tag and category fall back to tag and category exactly when falsy |
| FeedbackIngest.Normalize | scripts/feedback_ingest.py:27-38 | exactly one row per entry, in the same order, each the entry's `RowOf` |
| FeedbackIngest.Ingest | scripts/feedback_ingest.py:40-50 | nothing is written exactly when the log is missing or holds no entries; otherwise one row per entry, in order, each the `RowOf` of its entry |
| MergeFeedback.OrElse | scripts/merge_feedback_to_train.py:13-14 | `a or b` on cells: non-empty exactly when either is, a when a is non-empty, else b |
| MergeFeedback.RowFromFeedback | scripts/merge_feedback_to_train.py:13-18 | no row exactly when there is no transaction or no label; cleaned is copied; the transaction is raw, else the transaction column; the label is the corrected category, else the predicted category, else the predicted tag |
| MergeFeedback.FeedbackToTrainRows | scripts/merge_feedback_to_train.py:10-19 | the loop yields `UsableRows`: every usable record's row, in input order |
| MergeFeedback.UsableRowsWellFormed | scripts/merge_feedback_to_train.py:15-18 | never more rows than records; every row has a transaction and a category |
| MergeFeedback.UsableRowsEmpty | scripts/merge_feedback_to_train.py:15-18 | no rows exactly when every record lacks a transaction or a label |
| MergeFeedback.UsableRowsAppend | scripts/merge_feedback_to_train.py:12-18 | rows of concatenated feedback are the concatenated rows |
| MergeFeedback.DropDuplicatesKeys | scripts/merge_feedback_to_train.py:40 | the (transaction, category) pairs present are exactly those of the input |
| MergeFeedback.DropDuplicatesUnique | scripts/merge_feedback_to_train.py:40 | no two output rows share a (transaction, category) pair |
| MergeFeedback.DropDuplicatesOrder | scripts/merge_feedback_to_train.py:40 | the output is a subsequence of the input: survivors keep their relative order |
| MergeFeedback.DropDuplicatesKeepsLast | scripts/merge_feedback_to_train.py:40 | every survivor is the last occurrence of its pair in the input |
| MergeFeedback.LastOfKeySurvives | scripts/merge_feedback_to_train.py:40 | the last occurrence of every pair survives |
| MergeFeedback.UniqueKeysUnchanged | scripts/merge_feedback_to_train.py:40 | rows with unique pairs pass unchanged |
| MergeFeedback.DropDuplicatesIdempotent | scripts/merge_feedback_to_train.py:40 | removing duplicates twice gives the same as once |
| MergeFeedback.DistinctCategoriesSurvive | scripts/merge_feedback_to_train.py:40 | two rows with one transaction and different categories both have a survivor |
| MergeFeedback.DropDuplicatesAppend | scripts/merge_feedback_to_train.py:39-40 | on a concatenation, the first part loses the rows whose pair the second part has, and the second part is deduplicated on its own |
| MergeFeedback.MergeMain | scripts/merge_feedback_to_train.py:21-42 | the script's outcome is `Merge`: abort without base; the base unchanged without feedback or usable rows; otherwise base and feedback rows, deduplicated |
| MergeFeedback.MergeWithoutUsableFeedback | scripts/merge_feedback_to_train.py:26-37 | missing feedback, or feedback without usable rows, writes the base corpus unchanged |
| MergeFeedback.MergeIdempotent | scripts/merge_feedback_to_train.py:39-40 | merging the same feedback into an already-merged corpus gives it unchanged |
| MergeFeedback.FeedbackWins | scripts/merge_feedback_to_train.py:39-40 | a feedback row that is the last of its pair is in the output and is the only output row with that pair |

## Left out

- Unicode: `Cleaner.Clean` and `Cleaner.CleanTransaction` require ASCII input. NFKD normalisation, the Unicode control category and Unicode lower-casing are library tables. On ASCII, NFKD is the identity and the control category is the characters below 32 and 127.
- Non-string input to `clean_transaction` is not modelled. Python converts it with `str`, so `clean_transaction(123)` returns "123".
- The `_load` function (file existence and modification times, `joblib.load`, reading `config.json` into module globals) is I/O. Its result is the `Resources` parameter. Three of its behaviours are not captured: the configuration is read only once unless forced; a model file that disappears leaves the old model cached; model and vectorizer are reloaded independently, not together.
- Configuration values of the wrong type (for example a `null` threshold, which makes the comparison raise) are not modelled. A missing or `None` configuration is `EmptyConfig`.
- Floating point and the classifier's internals: probabilities are reals from an oracle.
- Training, evaluation, explanation, the demo UIs and the retraining orchestration are not part of this model. The Streamlit entry omits `cleaned` and `predicted_tag`. The command-line demo writes `text,category` lines, which ingest skips as invalid JSON.
- CSV and JSON files are values: the feedback table written by ingest and read by merge is not converted between JSON values and CSV text cells, and column schemas are not checked. Pandas NaN cells (truthy in Python) are modelled as the empty string.
- MergeFeedback.RowFromFeedback: the fallback chain of the label and of the transaction is stated on empty cells. In the source, ingest always writes a `corrected_category` column, and `read_csv` reads its empty cells back as NaN, which is truthy. So in the source the chain stops at a NaN `corrected_category` (and likewise at a NaN `raw`). The fallback to `predicted_category`, `predicted_tag` or `transaction` happens only in the model, where an empty cell is falsy.
- Concurrent appends to the feedback log.
- FeedbackIngest.Normalize, FeedbackIngest.Ingest: a log entry that is not a JSON object makes `e.get` raise in the source. Both instead require every (parsed) entry to be an object.
- Rewrites: only the specific patterns of the two tables are modelled, as ordered literal alternatives with word boundaries on ASCII. The repeated `\bgpay\b` key is a single dictionary entry, as in Python. The `amzn mk?tp` and `amzn mktp` entries never fire, because `amzn` has already become `amazon`.
- Inference.RuleOverride: `lower()` is ASCII lower-casing. The rule text is already lower case for ASCII input.
- Test expectations that the code does not satisfy (several `test_cleaner.py` assertions and the exact key set in `test_inference.py`) are not encoded. The model follows the code.
