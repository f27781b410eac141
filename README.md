# House finder core: condition filter, listing search and transit score

This project models the core of a house-finding assistant in Dafny and proves properties
of that model. The core has two parts.

**Listing search (`app.py`).** `evaluate_sql_condition` reads a comparison string such as
`"price <= 24000000"`. The string must match `^\w+\s*([<>=!]+)\s*([\d\.]+)$` after `price`,
`age` and `size` are rewritten to `value`. The threshold goes through `float`, and one of
six comparisons is applied. Every failure is read as "no constraint": a value that is not
a string, an empty string, a string that does not match, an unknown operator, or a number
`float` rejects.

`filter_houses` then narrows the listing collection through up to six stages, each a list
comprehension over what the stage before it kept:
- a radius around a centre;
- the price, age and size conditions;
- labels that must not occur;
- labels that must all occur.

It returns the first ten listings that are left.

**Transit score (`rate_house.py`).** The points of interest around a location are
classified one by one:
- an MRT, Taiwan Railway or high-speed-rail station, recognised by a marker in its
  `network` or `operator` tag;
- otherwise the first non-empty value of `amenity`, `shop`, `leisure` or `highway`;
- otherwise the element is dropped.

The labels are counted into a `Counter`. `check_living_function_updated` adds one point
for each of the three station categories whose count is positive.

Modules:
- `wrappers.dfy` holds `Option`.
- `text.dfy` holds Python's substring test `in` (`Contains`) and `str.replace`.
- `condition.dfy` holds the condition language.
- `listing_filter.dfy` holds `filter_houses`.
- `amenity.dfy` holds the classification loop and the count.
- `livability.dfy` holds the score.

Modelling decisions:
- **The pattern.** It is modelled as a scanner of maximal character runs. `MatchComplete`
  and `MatchSound` prove that the scanner accepts exactly the strings the pattern
  describes, and that it returns the pattern's two groups. Python's `$` also matches
  before one final newline, and the model keeps that.
- **The field-name rewriting.** It is modelled as written, and it rewrites anywhere in
  the string, not only in the identifier. `NormalizeKeepsMatch` proves that it never
  changes the outcome. Inside the leading `\w+` run it turns letters into letters, so the
  run stays a run. After the identifier, any text that holds a letter never matches, and
  it still holds one after the rewriting.
- **Thresholds.** They are exact decimals, and `float` is defined exactly on the runs of
  digits and dots that hold a digit and at most one dot.
- **The distance function and the listing collection.** Both are parameters of the
  search.
- **The classification loop.** It is a method with the source's if/elif chain and
  `is_station` flag. Its postcondition equates its labels with those of an ordered rule
  table: three transit rules tried first-match-first, then four general tag keys.
- **The score.** It is a method with the source's three `if`s, proved equal to the sum
  of a rule table.

Two points where the code does something a reader might not expect:
- Transit markers are searched in `network` and `operator` together for each category in
  turn. It is not all network names before all operator names.
- Label lists are read as sets, so repeated labels do not matter.

An element whose `amenity`, `shop`, `leisure` or `highway` tag has the literal value
`mrt_station`, `tra_station` or `hsr_station` is counted in that category, as the source
does. `Classify` gives such an element that label through the general-tag branch.

## Model

| member | source | states |
|---|---|---|
| Text.Contains | rate_house.py:48-56 | no contract of its own: Python's `sub in s`; its meaning is stated by Text.ContainsAt |
| Text.Replace | app.py:101 | no contract of its own: `str.replace`; Condition.NormalizeKeepsMatch states what the rewriting does to a condition |
| Text.ContainsAt | rate_house.py:48-56 | `sub in s` holds exactly when `sub` occurs at some position of `s` |
| Condition.MatchCondition | app.py:101 | a match yields an operator group of one or more `[<>=!]` characters and a number group of one or more digits or dots |
| Condition.MatchComplete | app.py:101 | every string made of a word run, blanks, an operator run, blanks, a number run and an optional final newline matches, with exactly that operator and number as its groups |
| Condition.MatchSound | app.py:101 | every match comes from such pieces, with the groups as the operator and number pieces; with MatchComplete, the scanner accepts exactly the pattern's strings |
| Condition.MissingOperatorMismatch | app.py:101-102 | a string whose operator position holds a character outside `[<>=!]` does not match |
| Condition.MissingNumberMismatch | app.py:101-102 | a string whose number position holds a character outside `[\d.]` (a sign, say) does not match |
| Condition.Normalize | app.py:101 | no contract of its own: the three `replace` calls; its effect is stated by Condition.NormalizeKeepsMatch and Condition.ParseNormalized |
| Condition.NormalizeKeepsMatch | app.py:101 | rewriting `price`, `age` and `size` to `value` never changes whether or how the string matches |
| Condition.ParseNormalized | app.py:101-113 | the rewriting never changes the parsed condition |
| Condition.ParseNumber | app.py:105 | `float` of a run of digits and dots, when defined, is non-negative |
| Condition.ParseNumberDefined | app.py:105 | `float` accepts a run of digits and dots exactly when it holds a digit and at most one dot |
| Condition.ParseWhole | app.py:105 | a run of digits reads as its decimal value |
| Condition.ParseFraction | app.py:105 | `whole.frac` reads as the exact decimal `whole + frac / 10^len(frac)` |
| Condition.ParseDecimalText | app.py:105 | the decimal text of every natural number reads back as that number |
| Condition.ParseOp | app.py:104-113 | an operator text names an operator exactly when it spells it; none for every text that spells none of the six |
| Condition.ParseOpText | app.py:107-112 | each of the six operators is recognised from its own spelling |
| Condition.Holds | app.py:107-112 | no contract of its own: the six comparisons; Condition.ComparisonApplies states that a matching string means exactly one of them |
| Condition.ParseCondition | app.py:101-113 | a parsed threshold is never negative |
| Condition.EvaluateCondition | app.py:95-115 | no contract of its own: `evaluate_sql_condition`; its meaning is stated by Condition.EvaluateMeaning, Condition.FalsyAcceptsAll, Condition.ComparisonApplies, Condition.UnknownOperatorAccepts, Condition.BadNumberAccepts and Condition.MismatchAccepts |
| Condition.EvaluateMeaning | app.py:95-115 | a string condition holds exactly when it parses to no condition or its comparison holds |
| Condition.FalsyAcceptsAll | app.py:97-98 | an absent, empty, falsy or non-string condition accepts every value |
| Condition.ComparisonApplies | app.py:104-112 | a well-formed condition with one of the six operators is exactly that comparison against its threshold |
| Condition.UnknownOperatorAccepts | app.py:113 | an operator run the pattern admits but that is none of the six accepts every value |
| Condition.BadNumberAccepts | app.py:105 | a number `float` rejects (two dots, or no digit) accepts every value, because the exception is caught at lines 114-115 |
| Condition.MismatchAccepts | app.py:102 | a string the pattern rejects accepts every value |
| Condition.AtMostExample | app.py:107 | `"price <= 100"` admits 100 and rejects 101 |
| Condition.TrailingNewlineExample | app.py:101-108 | `"size>=30\n"` is still a condition: it admits 30 and rejects 29 |
| Condition.UnknownSymbolExample | app.py:101-102 | `"price ~~ 100"` admits every value |
| Condition.NegativeThresholdExample | app.py:101-102 | `"age <= -5"` admits every value |
| Condition.DoubleEqualsExample | app.py:113 | `"price == 100"` admits every value |
| Condition.TwoDotsExample | app.py:105 | `"price <= 1.2.3"` admits every value, because `float` raises and lines 114-115 catch it |
| ListingFilter.Take | app.py:146 | `xs[:n]` is the prefix of `xs` of length `n`, or all of `xs` when `xs` is no longer than `n` |
| ListingFilter.Keeps | app.py:128-144 | no contract of its own: the predicate of each list comprehension; its meaning is stated by ListingFilter.ExcludeMeaning, ListingFilter.IncludeMeaning and ListingFilter.ActiveStagesMeaning |
| ListingFilter.Filter | app.py:128-144 | a stage keeps a subsequence of its input, and keeps exactly the listings its predicate holds for |
| ListingFilter.FilterAllPass | app.py:128-144 | a stage that every listing of a sequence passes returns the sequence unchanged |
| ListingFilter.FilterMultiplicity | app.py:128-144 | a stage keeps every copy of a listing that passes and no copy of one that fails |
| ListingFilter.Select | app.py:122-144 | the reference selection keeps a subsequence, and keeps exactly the listings every stage keeps |
| ListingFilter.SelectAllPass | app.py:122-144 | stages that every listing of a sequence passes select the whole sequence |
| ListingFilter.SelectMultiplicity | app.py:122-144 | the selection keeps every copy of a listing that passes every stage and no copy of any other |
| ListingFilter.FilterSelect | app.py:128-144 | filtering a selection by one more stage is the selection by all the stages |
| ListingFilter.RunStages | app.py:122-144 | no contract of its own: `filtered` rebound by each stage in turn; ListingFilter.PipelineSelects states that it equals ListingFilter.Select |
| ListingFilter.PipelineSelects | app.py:122-144 | rebinding `filtered` stage after stage is the reference selection by all the stages at once |
| ListingFilter.FilterHouses | app.py:117-146 | the result has at most ten listings, is an order-preserving subsequence of the collection, and every listing in it passes every active stage; it is exactly the first ten listings that pass them all |
| ListingFilter.ExcludeMeaning | app.py:139-141 | the exclusion stage keeps a listing exactly when none of the excluded labels is on it; a missing `label` is the empty set |
| ListingFilter.IncludeMeaning | app.py:142-144 | the inclusion stage keeps a listing exactly when every required label is on it |
| ListingFilter.ActiveStagesMeaning | app.py:125-144 | the stages the criteria switch on keep a listing exactly when it meets every criterion; a criterion left off would have admitted it anyway |
| ListingFilter.ResultMeetsCriteria | app.py:117-146 | every listing returned is from the collection, and meets the radius, the three conditions, the excluded labels and the required labels |
| ListingFilter.CompleteBelowCap | app.py:122-146 | while fewer than ten listings are returned, every listing of the collection that meets the criteria is among them |
| ListingFilter.NoCriteriaFirstTen | app.py:119-146 | with every criterion absent or falsy, the result is the first ten listings |
| ListingFilter.DistanceUnused | app.py:125-128 | without a centre, without a radius, or with a radius of 0, the distance function is never consulted |
| ListingFilter.FilterCommute | app.py:128-144 | any two stages give the same listings in the same order whichever runs first |
| ListingFilter.FilterIdempotent | app.py:128-144 | running a stage twice is running it once |
| ListingFilter.SelectSameStages | app.py:122-144 | the selection depends only on which stages are present |
| ListingFilter.StageOrderIrrelevant | app.py:122-144 | the staged pipeline gives the same listings for any order or repetition of the same stages |
| ListingFilter.ExcludeExample | app.py:139-141 | excluding `temple` drops a listing labelled `temple, park` and keeps one labelled `park` |
| ListingFilter.IncludeExample | app.py:142-144 | requiring `hospital` and `MRT station` keeps a listing with both and drops one with only `hospital` |
| ListingFilter.PriceCapExample | app.py:131-132 | `"price<=25000000"` admits 20000000 and rejects 30000000 |
| ListingFilter.SearchExample | app.py:117-146 | of listings A (within the radius, under the cap, unlabelled) and B (over the cap, labelled `temple`), the search returns A alone |
| Amenity.FirstTransitFirstMatch | rate_house.py:47-56 | the transit rules are tried in order: a category comes from the first rule that fires, and none from a table where none fires |
| Amenity.FirstNonEmptyFirstMatch | rate_house.py:60-65 | the general value is that of the first key with a non-empty value, and empty exactly when all four are missing or empty |
| Amenity.TransitChain | rate_house.py:44-56 | the transit rule table gives the same category as the source's if/elif chain on network and operator |
| Amenity.GeneralChain | rate_house.py:59-65 | the general key list gives the same value as the source's `or` chain |
| Amenity.Classify | rate_house.py:44-67 | no contract of its own: the rule table; Amenity.ClassifyChain states that it equals the source's chain, and Amenity.FirstTransitFirstMatch and Amenity.FirstNonEmptyFirstMatch state first-match-wins |
| Amenity.ClassifyChain | rate_house.py:42-67 | the rule table classifies every tag dictionary exactly as the source's chain does |
| Amenity.LabelsOf | rate_house.py:47-67 | an element contributes at most one label |
| Amenity.FoundTags | rate_house.py:40-67 | the elements contribute at most as many labels as there are elements |
| Amenity.CollectFoundTags | rate_house.py:40-67 | the loop with its `is_station` flag collects, in order, the labels the rule table assigns to the elements |
| Amenity.CountLabels | rate_house.py:69 | `Counter(labels)` has one key per distinct label, each label's count is its multiplicity, and every count is positive |
| Amenity.FindNearbyAmenityCounts | rate_house.py:40-69 | each category's count is the number of elements classified to it, and only categories with a positive count are keys |
| Amenity.FoundTagsCount | rate_house.py:40-69 | a label occurs among the collected labels as often as elements are classified to it |
| Amenity.ClassifiedCountPositive | rate_house.py:40-69 | a category's count is positive exactly when some element is classified to it |
| Amenity.MrtFirst | rate_house.py:48-50 | an MRT marker in the network or the operator makes the element an MRT station, whatever its other tags |
| Amenity.TraSecond | rate_house.py:51-53 | without an MRT marker, a Taiwan Railway marker makes the element a railway station |
| Amenity.HsrThird | rate_house.py:54-56 | without MRT or railway markers, a high-speed-rail marker makes the element a high-speed-rail station |
| Amenity.NoRailwayNames | rate_house.py:44-45 | without network and operator tags no transit rule fires; the element is classified by the first non-empty general tag, or dropped |
| Amenity.MrtExample | rate_house.py:48-50 | `{network: 台北捷運, railway: station}` is an MRT station |
| Amenity.GeneralExamples | rate_house.py:59-67 | `{amenity: bank}` is a `bank`, and an empty tag dictionary gives no label |
| Livability.CheckLivingFunction | rate_house.py:95-109 | the score is the sum of the transit rule table, between 0 and 3 |
| Livability.TableScore | rate_house.py:95-107 | a rule table scores at most one point per rule |
| Livability.TransitScore | rate_house.py:99-107 | the transit table scores one point per category with a positive count |
| Livability.ScoreCounts | rate_house.py:95-109 | with distinct categories, the score is the number of categories whose count is positive, and so at most the number of rules |
| Livability.ScoreIgnoresOtherCategories | rate_house.py:99-107 | counts that agree on the table's categories give the same score |
| Livability.OtherCategoryIrrelevant | rate_house.py:99-107 | adding or changing the count of a category outside the three leaves the score unchanged |
| Livability.RulesIndependent | rate_house.py:99-107 | changing one category's count moves the score by exactly the change in that rule's own point |
| Livability.ScoreExample | rate_house.py:99-107 | `{mrt_station: 2, tra_station: 0, hsr_station: 0}` scores 1 |
| Livability.EmptyCountsScoreZero | rate_house.py:99-107 | a missing category counts as 0, so an empty count scores 0 |
| Livability.ScoreOfElements | rate_house.py:40-109 | the score of a neighbourhood is the number of transit categories that at least one of its elements is classified to |

## Left out

- `haversine` (app.py:84-93) is floating-point trigonometry. It is a parameter of the search, and only its use in the `<= max_dist` test is modelled.
- `get_ai_criteria` (app.py:44-82) is a network call to a language model. Its criteria object is the model's input.
- The Flask routes, the reply text, the web view and the threads (app.py:150-211) are user interface and concurrency.
- Loading `data.json` (app.py:13-39) is file input. The listing collection is a parameter.
- The model's `location` is a pair of numbers. The source unpacks `location` only when `location` and `distance` are both truthy (app.py:125). In that case a value that does not unpack into two items raises at app.py:126, and a two-item value whose items are not numbers, such as a two-character string, raises later inside `haversine`. A falsy `location` raises nothing and skips the radius stage, as `GeoActive` does in the model.
- Label criteria are lists of strings in the model. The source passes `labels_to_exclude` and `labels_to_include` to `set(...)` (app.py:140, app.py:143), which reads a string value as the set of its characters and raises nothing: `labels_to_exclude: "temple"` drops no listing labelled `temple`, only listings carrying a one-character label such as `t` or `e`, and `labels_to_include: "hospital"` keeps only listings that carry every one-character label `h`, `o`, `s`, `p`, `i`, `t`, `a`, `l`. The model does not represent a string-valued label list.
- Listing fields are numbers in the model: `price`, `age`, `size`, `latitude` and `longitude` are always present and `real`. In the source, a `null` or string `price`, `age` or `size` behaves by operator. Under `<=`, `>=`, `<` and `>` the comparison raises `TypeError`, which is caught at app.py:114-115, so the listing passes that condition. Under `=` the comparison is False (app.py:111), so the listing is dropped. Under `!=` it is True (app.py:112), so the listing is kept. A listing without one of these keys raises `KeyError` only once it reaches an active stage that reads that key (app.py:128, 132, 134, 136). A stage that is off never reads it, so with no criteria such a listing is simply returned. The model has none of these cases.
- Listing labels are a list of strings or absent in the model. In the source, a listing whose `label` entry is `null` raises in `set(None)` only once it reaches an active exclude or include stage (app.py:139-144). A string-valued `label` is read by `set(...)` at app.py:141 and app.py:144 as the set of its characters. The model reads a missing `label` as the empty set and represents neither the null nor the string case.
- The Overpass query, the HTTP request, the JSON decoding and the `except` branches that return an empty `Counter` (rate_house.py:12-38, 71-76) are network input and output. The elements are a parameter of the loop.
- An element whose `tags` entry is `null` would make `tags.get` raise, and the whole call would return an empty `Counter`. The model has no null tags.
- The module-level demonstration and every `print` (rate_house.py:78-91, 101-107, 111-112) are output only.
- Livability.CheckLivingFunction: returns the integer score, not the text `綜合評分: {score}` that the source builds from it.
- Condition.ParseNumber: thresholds are exact decimals, so the rounding of `float` to a binary double is not modelled.
- Condition.MatchCondition: `\w`, `\s` and `\d` are the ASCII classes, so the wider Unicode classes of Python's `re` on `str` are not modelled. As a result, a non-ASCII identifier such as `"價格 <= 100"` matches in the source, which then enforces the condition, while the model finds no match and admits every value.
