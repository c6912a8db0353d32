# Recipe matcher model

A Dafny model of the recipe matching and ranking engine of SmartRecipeGenerator.
The engine is `matchRecipes(availableIngredients, recipes, options)` in
`lib/recipeMatcher.js`. It takes the ingredients a cook has, a recipe catalog
and filter options (`diet`, `difficulty`, `maxTime`). It returns at most 20
scored recipes, best first. It works in five steps:

1. **Normalise.** Every ingredient and tag is lower-cased and trimmed (`Text.Normalize`).
2. **Filter.** The catalog is filtered by diet tag, difficulty and maximum time (`Filtering.FilterRecipes`).
3. **Classify.** Each required ingredient goes into exactly one bucket by a
   first-match-wins chain (`Scoring.Classify`): exact, then a member of its
   similarity group, then the first available substitute from the substitution
   table, otherwise unmet.
4. **Score.** The score is `(exact + 0.9 similar + 0.7 substituted) / max(1, required)`,
   reported as a rounded percentage (`Scoring.ScoreOf`, `Scoring.MatchScore`, `Matcher.Scored`).
5. **Rank.** A stable sort orders the results by score descending, then rating
   descending, then time ascending. The first 20 are kept (`Ranking.Sort`, `Matcher.MatchRecipes`).

Files:

- `text.dfy` (module `Text`): `normalize`.
- `tables.dfy` (module `Tables`): the two lookup tables, `findSimilar`, and the substitution lookup.
- `recipes.dfy` (module `Recipes`): recipe and match-result records.
- `scoring.dfy` (module `Scoring`): `scoreRecipe`. A reference definition tags each
  ingredient (`Classify`) and then counts the tags. The source's counter loop is written
  as a method, `ScoreRecipe`, and proved to compute the same counts; its loop calls
  `Classify` for each ingredient. The source's per-ingredient chain is written once more
  as a separate method, `ClassifyStep`, which the loop does not call. Its contract
  describes each outcome without naming `Classify`, and its last clause proves that it
  agrees with `Classify`.
- `filtering.dfy` (module `Filtering`): the options record and the catalog filter.
- `ranking.dfy` (module `Ranking`): the sort comparator and the stable insertion sort.
- `matcher.dfy` (module `Matcher`): `matchRecipes`, its end-to-end properties, and worked examples over the source's own tables.
- `wrappers.dfy` (module `Wrappers`): `Option`.

Modelling choices:

- **Tables are a parameter.** The lookup tables are a `Tables` value. `Tables.DefaultTables`
  holds the source's literals in source order. That is the order `Object.keys` and
  `Object.entries` visit them.
- **Exact arithmetic.** Scores are integers. `Credit` counts tenths of an ingredient:
  10 per exact match, 9 per similar match, 7 per substitution. `Math.round(score * 100)`
  becomes `(20 * credit + total) / (2 * total)`, which is round-half-up of `10 * credit / total`.
- **Rating is a parameter.** The tie-breaking rating is an injected function from recipe id
  to integer. The source reads it from browser storage, and on the server it is always 0.
- **JavaScript truthiness is kept.** An empty-string `diet` or `difficulty` option means
  "no filter". A table key or a substitute that is the empty string earns no credit.
  The source's tables contain no empty key and no empty substitute (`Tables.DefaultTablesWellFormed`).

Behaviour of the source worth knowing:

- **`have`.** The output `have` counts exact matches only (lib/recipeMatcher.js:48-49).
  A match through a similarity group raises the score (lib/recipeMatcher.js:52-56,73),
  but it is not counted in `have` or reported anywhere else.
- **`'any'` check.** The diet option is compared with `'any'` before normalising
  (lib/recipeMatcher.js:5,79). So `"Any"` turns the diet filter on, and it then requires
  a tag `any`. Difficulty works the same way (lib/recipeMatcher.js:87).
- **Zero scores.** Recipes scoring 0 are kept. Only the three filters remove recipes
  (lib/recipeMatcher.js:77-98), and the result is a plain `slice(0, 20)` of the ranking
  (lib/recipeMatcher.js:123). `Matcher.MatchRecipes` returns `min(20, filtered)` results.
  With nothing available, every one of them scores 0 (`Matcher.EmptyAvailableScoresZero`).
- **No clamping.** `matchScore` is `Math.round(score * 100)` with no clamp
  (lib/recipeMatcher.js:104). It never needs one: the bound `0..100` is proved
  (`Scoring.MatchScoreBounds`, `Scoring.Percent`).
- **Shared credit.** One available variant can credit several required ingredients.
  The similarity test asks only whether some group member is available
  (lib/recipeMatcher.js:53), and nothing marks a variant as used.

## Model

| member | source | states |
|---|---|---|
| Text.Trim | lib/recipeMatcher.js:3 | the result is the input with only whitespace cut from its two ends, and it neither starts nor ends with whitespace |
| Text.Normalize | lib/recipeMatcher.js:3 | the result has no upper-case letter and no outer whitespace, and is the trimmed lower-cased input |
| Text.NormalizeFixes | lib/recipeMatcher.js:3 | normalising leaves a string unchanged exactly when it is already normal |
| Text.NormalizeIdempotent | lib/recipeMatcher.js:3 | normalising twice is the same as normalising once |
| Text.NormalizeAllAppend | lib/recipeMatcher.js:4 | normalising the available list distributes over appending ingredients |
| Tables.DefaultTablesWellFormed | lib/recipeMatcher.js:8-28 | in the source's two literal tables every key and every substitute is a non-empty (truthy) string |
| Tables.FindIndex | lib/recipeMatcher.js:59 | `Array.prototype.find` as a position: the first element satisfying the test, with none before it; none exactly when no element does |
| Tables.FirstGroup | lib/recipeMatcher.js:31-35 | finds the first similarity group holding the ingredient as key or variant; none exactly when no group holds it |
| Tables.FindSimilar | lib/recipeMatcher.js:30-37 | returns the key and variants of the first group holding the ingredient, or the singleton of the ingredient; the ingredient is always in the result |
| Tables.LookupKey | lib/recipeMatcher.js:59 | finds the first substitution entry keyed by the ingredient; none exactly when no key equals it |
| Tables.FirstAvailable | lib/recipeMatcher.js:62 | finds the first candidate whose normalised form is available; none exactly when no candidate is |
| Tables.SubstituteFor | lib/recipeMatcher.js:59-66 | a credited substitute is non-empty, available after normalising, and listed under the ingredient's key; an ingredient that is no key gets none |
| Tables.SubstituteForIsFirstAvailable | lib/recipeMatcher.js:59-66 | over well-formed tables, for an ingredient keyed in the table, no substitute is found exactly when no candidate is available, and a found one is the first available candidate in table order |
| Tables.SubstituteForIsFirst | lib/recipeMatcher.js:59-66 | the lookup chain credits `s` exactly when the ingredient is truthy, `s` is truthy, and `s` is the first candidate whose normalised form is available in the first entry keyed by the ingredient |
| Tables.SubstituteForMonotone | lib/recipeMatcher.js:59-66 | over tables with no empty substitute, making more ingredients available never loses a substitute |
| Scoring.Classify | lib/recipeMatcher.js:46-68 | exact exactly when available; similar exactly when not available and a member of its group is; substituted only when neither, with an available table candidate; similar credit needs another available member of the ingredient's first group |
| Scoring.BucketsPartition | lib/recipeMatcher.js:46-68 | every required ingredient lands in exactly one bucket: the four bucket counts sum to the number required |
| Scoring.CreditIsWeightedCount | lib/recipeMatcher.js:73 | the summed per-ingredient credit is 10·exact + 9·similar + 7·substituted |
| Scoring.DetailsCount | lib/recipeMatcher.js:63-65 | there is one substitution detail per substituted ingredient |
| Scoring.DetailsInOrder | lib/recipeMatcher.js:46-66 | details follow ingredient order: the details of a concatenated list are the details of its parts, concatenated |
| Scoring.DetailsAreSubstitutions | lib/recipeMatcher.js:59-66 | each detail pairs a required ingredient with the substitute credited for it |
| Scoring.ScoreOf | lib/recipeMatcher.js:39-75 | exact + similar + substituted ≤ required; the divisor is at least 1 and equals the required count when there is one; details count equals substitutions; credit ≤ 10·divisor |
| Scoring.ScoreOfSnoc | lib/recipeMatcher.js:46-69 | one more required ingredient adds one to the count of its own bucket only, and appends its detail exactly when it is substituted |
| Scoring.ClassifyStep | lib/recipeMatcher.js:47-67 | exact exactly when the ingredient is available; similar exactly when it is not, but some member of its similarity group is; substituted only when neither, and then with the first available candidate of the first entry keyed by the ingredient, both truthy; unmet exactly when none of the three applies; the outcome agrees with `Scoring.Classify` |
| Scoring.ScoreRecipe | lib/recipeMatcher.js:39-75 | the source's counter loop, incrementing one counter per ingredient, computes exactly the reference bucket counts, divisor and details |
| Scoring.MatchScore | lib/recipeMatcher.js:104 | the result is the integer nearest to the percentage 10·credit/total, halves rounded up |
| Scoring.MatchScoreBounds | lib/recipeMatcher.js:104 | with credit at most one per ingredient the percentage lies in 0..100; full credit gives 100 and no credit gives 0 |
| Scoring.MatchScoreMonotone | lib/recipeMatcher.js:104 | rounding never decreases as credit grows |
| Scoring.Percent | lib/recipeMatcher.js:104 | the percentage is 100 · score rounded to the nearest integer, halves up, and lies in 0..100 whenever the credit is at most one per ingredient |
| Scoring.PercentBounds | lib/recipeMatcher.js:71-73 | every recipe's percentage lies in 0..100 |
| Scoring.EmptyRecipeScoresZero | lib/recipeMatcher.js:71 | a recipe with no ingredients divides by 1 and scores 0 |
| Scoring.AllExactScoresHundred | lib/recipeMatcher.js:46-49 | a non-empty recipe whose every ingredient is available scores 100 |
| Scoring.NothingAvailableUnmet | lib/recipeMatcher.js:48-66 | with nothing available an ingredient is neither exact, similar nor substituted |
| Scoring.NothingAvailableScoresZero | lib/recipeMatcher.js:46-73 | with nothing available a recipe has no exact, similar or substituted ingredient, no details, and scores 0 |
| Scoring.ClassifyMonotone | lib/recipeMatcher.js:46-68 | with more ingredients available an ingredient only moves to a bucket of equal or higher weight |
| Scoring.CreditMonotone | lib/recipeMatcher.js:46-73 | with more ingredients available a recipe's credit never decreases |
| Scoring.PercentMonotone | lib/recipeMatcher.js:46-73 | with more ingredients available a recipe's percentage never decreases |
| Text.NormalizeAll | lib/recipeMatcher.js:40 | normalising a list keeps its length and normalises each element in place |
| Filtering.Keep | lib/recipeMatcher.js:77-98 | a recipe passes exactly when: a diet other than a falsy value or 'any' is among its normalised tags; a difficulty other than a falsy value or 'any' equals its own after normalising; and it is within the time limit |
| Filtering.FilterRecipes | lib/recipeMatcher.js:77-98 | every kept recipe passes the diet, difficulty and time tests, and every passing recipe is kept as often as it occurs in the catalog |
| Filtering.FilterRecipesCons | lib/recipeMatcher.js:77-98 | the first recipe is kept, in front of the kept rest, exactly when it passes |
| Filtering.FilterRecipesAppend | lib/recipeMatcher.js:77-98 | filtering a concatenation is the concatenation of the filtered parts, so the kept recipes stay in catalog order |
| Filtering.NoFilterKeepsAll | lib/recipeMatcher.js:79-95 | when the diet and difficulty options are falsy or 'any' and there is no time limit (also an unparsable one), the whole catalog is kept, in order |
| Ranking.Compare | lib/recipeMatcher.js:113-121 | the comparator is negative exactly when the first is strictly ahead by (score desc, rating desc, time asc), zero exactly on equal keys, positive exactly when the second is strictly ahead |
| Ranking.CompareConsistent | lib/recipeMatcher.js:113-121 | the comparator is antisymmetric, and "not after" is transitive |
| Ranking.Insert | lib/recipeMatcher.js:113 | inserting adds exactly the new element |
| Ranking.ConsSorted | lib/recipeMatcher.js:113-121 | an element not ranked behind any element of a sorted list can be put in front of it |
| Ranking.InsertSorted | lib/recipeMatcher.js:113-121 | inserting into a sorted list keeps it sorted |
| Ranking.Sort | lib/recipeMatcher.js:113-121 | the sorted list is a permutation of the scored list |
| Ranking.SortSorted | lib/recipeMatcher.js:113-121 | no later element is ranked strictly ahead of an earlier one |
| Ranking.InsertStable | lib/recipeMatcher.js:113-121 | inserting puts the new element before every element with its key |
| Ranking.SortStable | lib/recipeMatcher.js:113-121 | elements with equal keys keep their catalog order |
| Ranking.SortedStableUnique | lib/recipeMatcher.js:113-121 | two sorted lists with the same elements per key, in the same order, are equal |
| Ranking.SortIsTheStableSort | lib/recipeMatcher.js:113-121 | any sorted, order-preserving rearrangement of the input is exactly the sort's result |
| Matcher.Scored | lib/recipeMatcher.js:100-110 | keeps the recipe unchanged; the score is in 0..100; needed is the ingredient count or 1; an empty recipe scores 0; have + substitutions ≤ needed; one detail per substitution |
| Matcher.ScoreAll | lib/recipeMatcher.js:100-110 | scoring the filtered list keeps its length and order: each entry is the scoring of the recipe at the same position |
| Matcher.MatchRecipes | lib/recipeMatcher.js:77-123 | returns min(20, filtered count) results; each is a catalog recipe that passes the filters, carrying its own score fields; the list is sorted |
| Matcher.OutputPassesFilters | lib/recipeMatcher.js:77-98 | every returned recipe passes each active filter: the diet is among its normalised tags, the difficulty matches after normalising, and the time is within the limit |
| Matcher.RankedFromCatalog | lib/recipeMatcher.js:77-121 | every ranked entry is the scoring of a catalog recipe that passes the filters |
| Matcher.PrefixOfSorted | lib/recipeMatcher.js:123 | a prefix of a sorted list holds a given member or only members not ranked behind it |
| Matcher.OutputIsTopRanked | lib/recipeMatcher.js:112-123 | a kept recipe that is not returned ranks no better than every returned one |
| Matcher.OutputIsStableRanking | lib/recipeMatcher.js:112-123 | the result is the first 20 of the stable sort of the scored, filtered catalog |
| Matcher.EmptyAvailableScoresZero | lib/recipeMatcher.js:2-123 | with an empty available list every returned recipe scores 0, with have 0 and no substitution |
| Matcher.MoreIngredientsNeverLowerScore | lib/recipeMatcher.js:46-73 | adding ingredients to the available list never lowers any recipe's match score |
| Matcher.TwoOfThreeScores67 | lib/recipeMatcher.js:46-73 | with tomato, onion and egg available, a recipe needing tomato, onion and milk has 2, needs 3, gets no substitution and scores 67 |
| Matcher.MilkSubstitutedScores70 | lib/recipeMatcher.js:59-73 | with almond milk available, a recipe needing milk gets one substitution (milk → almond milk) and scores 70 |
| Matcher.CherryTomatoScores90 | lib/recipeMatcher.js:52-56 | with cherry tomato available, a recipe needing tomato is credited through its similarity group and scores 90 |
| Matcher.VeganFilterExcludesVegetarian | lib/recipeMatcher.js:79-84 | a vegan filter removes a recipe tagged only vegetarian, whatever ingredients are available |

## Left out

- `getRating` (lib/recipeMatcher.js:127-133) reads browser storage. It is replaced by an injected `rating` function from id to integer. The source's `Number(saved)` can also give fractions or NaN, and the model does not cover those.
- Floating point is not modelled. `score * 100` and `Math.round` are computed exactly in integers, so `Scoring.MatchScore` and `Scoring.Percent` give the exact round-half-up result. The source's double arithmetic differs at some exact halves: with 4 required ingredients of which 3 are substituted, the source computes `52.49999999999999` and returns 52, where the model returns 53. Such a difference can only arise where the exact value is a half, and there the source's value is the lower one.
- `parseInt` is not modelled. `maxTime` is the already-parsed `Option<int>`. `None` stands for an absent value, `'any'`, a falsy value (including numeric 0) and a text that parses to NaN, since `r.time > NaN` is false.
- Lower-casing is not full Unicode. `toLowerCase` is modelled on the ASCII letters A–Z only; other letters keep their case. Trimming uses the exact code-point set of `String.prototype.trim`.
- `String(s)` coercion is not modelled. Ingredients, tags and difficulty are strings in the model. A missing `ingredients` or `diet` list is the empty sequence, but a missing `difficulty` (`"undefined"` in the source) is not modelled.
- Numeric fields are simplified. `time` is an integer, and the recipe record omits `nutrition`. The spread copies it unchanged and nothing reads it.
- The UI and HTTP layers are not part of this model: `pages/index.jsx`, the `components/` files, `pages/api/match.js`, and `pages/api/aiRecipes.js` with its duplicated fallback filter. They are I/O, rendering or calls to an external service.
- Tables.SubstituteForMonotone, Scoring.ClassifyMonotone, Scoring.CreditMonotone, Scoring.PercentMonotone and Matcher.MoreIngredientsNeverLowerScore assume well-formed tables (no empty substitute). With an empty-string substitute ahead of an available one, adding ingredients could lose a substitution. The source's tables are well formed.
