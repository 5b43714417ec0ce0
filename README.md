# Pattern detector model

A Dafny model of the problem classifier in `utils/`. It takes the text of a
programming problem and guesses which algorithmic pattern solves it. The model
covers three pieces:

- **The keyword rules** (`utils/patternDetector.ts`). Six rules test the
  lower-cased text for substrings. Each rule that fires adds a fixed entry:
  Binary Search 90, Greedy 85, Core Algorithm: Sorting 80, Sliding Window 75,
  Graph (BFS / DFS) 70, Dynamic Programming 65.
- **The semantic matcher** (`utils/semanticMatcher.ts`).
  - Text becomes a set of tokens: lower-case it, delete everything outside
    `[a-z0-9 ]`, split on single spaces, drop empty pieces.
  - The input's token set is compared with each catalog description's by the
    Jaccard index (shared tokens over all tokens).
  - The two best catalog patterns are returned.
- **The catalog** (`utils/mlConfig.ts`). Six patterns with their descriptions,
  in a fixed order.

The detector pushes the rule entries, then one entry per semantic hit at
confidence `round(60 + 40 * score)`. It ranks the list by descending
confidence and keeps the first three. An empty list gives the "Unclear"
fallback at confidence 40.

Modules:

- `Text` (`text.dfy`): ASCII lower-casing and substring containment.
- `Ranking` (`ranking.dfy`): the stable descending sort and truncation both
  files end with.
  - `SortDesc` is the reference definition.
  - `InsertionSort` is the loop proved to compute it.
  - The lemmas prove it is a permutation, ranked, stable, and keeps a top-n.
- `Catalog` (`catalog.dfy`): the pattern catalog.
- `SemanticMatcher` (`semantic_matcher.dfy`): tokenizing, Jaccard similarity
  and the top-two match.
- `PatternDetector` (`pattern_detector.dfy`): the rules, the detector method
  and its ranked result.

Design choices:

- **The catalog is a parameter.** `SemanticMatch`, `Detect` and
  `DetectPatternFromText` take the catalog as an argument.
  - They require every description to have at least one token
    (`ValidCatalog`). Without that, the source would divide 0 by 0 when the
    input also has no tokens.
  - `CatalogTokenized` proves the shipped catalog meets this.
  - `DetectWithCatalog` is the detector exactly as shipped.
  - With the shipped catalog the fallback branch can never be taken.
    `FallbackExactlyWhenNoCandidates` with `CandidatesEmpty` proves this, and
    `DetectWithCatalog` states it.
- **The pushes are helper methods.** The six rule `if` blocks are in
  `CollectRuleHits`, which `DetectPatternFromText` calls first; the
  `forEach` over the semantic hits is `PushSemanticResults`, called next.
  The order and content of the pushes are unchanged.
- **Scores are exact rationals.**
  - Scores are Dafny `real`s: `|A ∩ B| / |A ∪ B|` computed exactly.
  - `Math.round` is the floor of `x + 0.5`.
  - `SemanticConfidenceExact` shows the confidence is the integer quotient
    `(121u + 80i) div 2u` for `i` shared tokens out of `u`. So the exact model
    and the floating-point program agree except where a floating-point error
    crosses a rounding boundary.
- **One sort definition stands for JavaScript's sort.** JavaScript's
  `Array.prototype.sort` is stable. The comparators `b.score - a.score` and
  `b.confidence - a.confidence` order by descending key. A stable sort by a
  key has exactly one possible output, so `SortDesc` (a stable insertion
  sort) is that output.

Empty or unrelated input does not give "Unclear". With the shipped
catalog, the fallback at `utils/patternDetector.ts:111-120` is never
reached, because the two semantic hits are always pushed. Text that fires no
rule and shares no token with any description scores 0 everywhere. The
stable sort then keeps catalog order, so the result is Binary Search, then
Greedy, both at confidence 60. Three lemmas state this:
`UnrelatedTextShipped` in general, `NoTokenTextShipped` for text such as
"???", and `EmptyTextShipped` for the empty text.

## Model

| member | source | states |
|---|---|---|
| Text.LowerChar | utils/patternDetector.ts:12 | the result is never an upper-case ASCII letter; `A`–`Z` move up by 32; every other character is unchanged |
| Text.Lower | utils/patternDetector.ts:12 | `toLowerCase` keeps the length and lower-cases character by character |
| Text.LowerHasNoUpper | utils/patternDetector.ts:12 | no upper-case ASCII letter remains after lower-casing |
| Text.LowerIdempotent | utils/semanticMatcher.ts:6 | lower-casing the already lower-cased detector input again changes nothing |
| Text.Contains | utils/patternDetector.ts:17-91 | `includes`: a contained string is never longer than the text, and the empty string is contained in every text |
| Text.ContainsInEmpty | utils/patternDetector.ts:16-22 | the empty string `includes` only the empty string, so no keyword test passes on empty input |
| Ranking.SortDesc | utils/semanticMatcher.ts:31 | the sorted list has the input's length |
| Ranking.SortDescPermutes | utils/patternDetector.ts:123 | the sort is a permutation of its input (multiset equality) and its keys never increase |
| Ranking.SortDescStable | utils/patternDetector.ts:123 | stability: for every key value, elements with that key keep their input order |
| Ranking.SortDescAllEqual | utils/semanticMatcher.ts:31 | when every key is equal the sort returns the input unchanged |
| Ranking.Take | utils/semanticMatcher.ts:32 | `slice(0, n)` has length min(n, length) |
| Ranking.TakeSortDescFromInput | utils/patternDetector.ts:123 | the top-n has length min(n, length), is ranked, and holds only input elements |
| Ranking.TakeSortDescKeepsBest | utils/patternDetector.ts:123 | every element left out of the top-n has a key no larger than every kept one |
| Ranking.TakeSortDescStable | utils/semanticMatcher.ts:31-32 | within the top-n, the entries of each key value are an initial run of that value's entries in input order |
| Ranking.InsertionSort | utils/patternDetector.ts:123 | the insertion loop returns exactly `SortDesc` of its input |
| Catalog.PatternDescriptions | utils/mlConfig.ts:1-32 | the six pattern entries with their descriptions, in source order |
| Catalog.PatternNames | utils/mlConfig.ts:1-32 | one name per catalog entry, in catalog order |
| Catalog.CatalogOrder | utils/mlConfig.ts:1-32 | the catalog names are Binary Search, Greedy, Sliding Window, Dynamic Programming, Graph (BFS / DFS), Two Pointers, in that order |
| Catalog.CatalogHead | utils/mlConfig.ts:1-11 | the catalog has at least two entries, Binary Search first and Greedy second |
| Catalog.CatalogNamesDistinct | utils/mlConfig.ts:1-32 | no pattern name occurs twice in the catalog |
| SemanticMatcher.Strip | utils/semanticMatcher.ts:7 | the cleaned text holds only `[a-z0-9 ]` |
| SemanticMatcher.Split | utils/semanticMatcher.ts:8 | `split(" ")` always gives at least one piece |
| SemanticMatcher.SplitPieces | utils/semanticMatcher.ts:8 | no piece holds a space, and pieces hold only characters of the split string |
| SemanticMatcher.SplitJoin | utils/semanticMatcher.ts:8 | splitting `u + " " + v` gives the pieces of `u` followed by the pieces of `v` |
| SemanticMatcher.SplitAllEmpty | utils/semanticMatcher.ts:8-9 | every piece is empty exactly when the string is all spaces |
| SemanticMatcher.StripAppend | utils/semanticMatcher.ts:7 | the clean-up works character by character: it distributes over concatenation |
| SemanticMatcher.StripAllSpaces | utils/semanticMatcher.ts:7 | the cleaned text is all spaces exactly when the text holds no `[a-z0-9]` character |
| SemanticMatcher.Tokenize | utils/semanticMatcher.ts:3-11 | every token is non-empty and made of `[a-z0-9]` only |
| SemanticMatcher.Words | utils/semanticMatcher.ts:8-10 | the `filter(Boolean)` set of the split pieces: every word is non-empty, holds no space and only characters of the cleaned text |
| SemanticMatcher.TokenizeIgnoresCase | utils/semanticMatcher.ts:6 | the token set of a text equals that of its lower-cased form |
| SemanticMatcher.TokenizeJoin | utils/semanticMatcher.ts:3-11 | the tokens of `x + " " + y` are the union of the tokens of `x` and of `y` |
| SemanticMatcher.TokenizeWordOrder | utils/semanticMatcher.ts:3-11 | swapping two space-separated parts does not change the token set |
| SemanticMatcher.TokenizeRepetition | utils/semanticMatcher.ts:4-10 | repeating a text after a space adds no token (the set drops duplicates) |
| SemanticMatcher.TokenizeDeletes | utils/semanticMatcher.ts:7 | a character whose lower case is outside `[a-z0-9 ]` is deleted: removing it leaves the token set unchanged |
| SemanticMatcher.TokenizeWord | utils/semanticMatcher.ts:3-11 | a non-empty word over `[a-z0-9]` is its own only token |
| SemanticMatcher.TabJoinsWords | utils/semanticMatcher.ts:7-8 | a tab is not a separator: `"ab\tcd"` has the single token `"abcd"` |
| SemanticMatcher.TokenizeEmpty | utils/semanticMatcher.ts:3-11 | a text has no token exactly when none of its characters lower-cases into `[a-z0-9]` |
| SemanticMatcher.TokenizeNonEmpty | utils/semanticMatcher.ts:3-11 | a text with a letter or digit anywhere has at least one token |
| SemanticMatcher.JaccardCardinalities | utils/semanticMatcher.ts:14-16 | the intersection is never larger than the union, and equal sizes mean equal sets |
| SemanticMatcher.Similarity | utils/semanticMatcher.ts:13-17 | the Jaccard score lies in [0, 1]; it is 0 exactly when the sets are disjoint and 1 exactly when they are equal |
| SemanticMatcher.SimilaritySymmetric | utils/semanticMatcher.ts:13-17 | the score does not depend on argument order |
| SemanticMatcher.Scores | utils/semanticMatcher.ts:22-30 | one scored hit per catalog entry |
| SemanticMatcher.SemanticMatch | utils/semanticMatcher.ts:19-33 | the match returns min(2, catalog size) hits |
| SemanticMatcher.CatalogTokenized | utils/semanticMatcher.ts:23 | every shipped description has at least one token, so no similarity divides by zero |
| SemanticMatcher.SemanticMatchRanked | utils/semanticMatcher.ts:31-32 | the hits are ranked by score, come from the full scoring, no omitted pattern outscores a kept one, and ties keep catalog order |
| SemanticMatcher.SemanticMatchHits | utils/semanticMatcher.ts:22-30 | each hit names a catalog pattern and carries its similarity to that description, a score in [0, 1] |
| SemanticMatcher.SemanticMatchNoSharedTokens | utils/semanticMatcher.ts:19-33 | input that shares no token with any description scores 0 everywhere, so the hits are the first catalog patterns in catalog order |
| PatternDetector.Fires | utils/patternDetector.ts:16-91 | the six keyword conditions; a rule fires only on input of at least two characters, the shortest keyword being "dp" |
| PatternDetector.RuleHit | utils/patternDetector.ts:24-97 | the entry a rule pushes has a confidence in [65, 90] that is a multiple of 5 |
| PatternDetector.RuleHits | utils/patternDetector.ts:15-98 | at most six rule entries, each with a confidence in [65, 90] |
| PatternDetector.CollectRuleHits | utils/patternDetector.ts:15-98 | the six rule blocks push exactly the entries of the rules that fire, in rule order |
| PatternDetector.PushSemanticResults | utils/patternDetector.ts:102-109 | the `forEach` appends exactly the entries of the semantic hits, in hit order, after what was pushed before |
| PatternDetector.Candidates | utils/patternDetector.ts:13-109 | the candidate list holds every fired rule plus min(2, catalog size) semantic entries |
| PatternDetector.Detect | utils/patternDetector.ts:11-124 | the ranked detection has between one and three entries |
| PatternDetector.DetectPatternFromText | utils/patternDetector.ts:11-124 | the method's result is the ranked detection `Detect` of the text against the catalog |
| PatternDetector.DetectWithCatalog | utils/patternDetector.ts:100-123 | with the shipped catalog: two entries when no rule fires and three otherwise, never the "Unclear" fallback |
| PatternDetector.RuleHitsFire | utils/patternDetector.ts:15-98 | a rule's entry is among the rule hits exactly when its condition holds, and every rule hit is such an entry |
| PatternDetector.RuleHitsDescending | utils/patternDetector.ts:15-98 | rule hits come in strictly descending confidence |
| PatternDetector.RuleTable | utils/patternDetector.ts:24-97 | the Binary Search, Greedy, Sorting, Sliding Window, Graph and Dynamic Programming entries, the order `RuleHits` pushes them in, have confidences 90, 85, 80, 75, 70, 65; the sorting rule is named "Core Algorithm: Sorting" |
| PatternDetector.SortedFiresSorting | utils/patternDetector.ts:18-51 | any text that contains "sorted" also fires the Sorting rule, since "sorted" contains "sort" |
| PatternDetector.SortingTestSubsumed | utils/patternDetector.ts:48-51 | the "sorting" test is redundant: the rule fires exactly on "sort" or on "arrange" with "order" |
| PatternDetector.RuleAndCatalogNames | utils/patternDetector.ts:54 | "Two Pointers" can come only from the catalog, and "Core Algorithm: Sorting" only from the rules |
| PatternDetector.Round | utils/patternDetector.ts:105 | `Math.round` returns the integer within one half of its argument |
| PatternDetector.SemanticConfidence | utils/patternDetector.ts:105 | a score in [0, 1] becomes a confidence in [60, 100] |
| PatternDetector.SemanticConfidenceExact | utils/patternDetector.ts:105 | for a score i/u the confidence is the integer quotient (121u + 80i) div 2u |
| PatternDetector.SemanticConfidenceMonotone | utils/patternDetector.ts:105 | a higher score never gives a lower confidence |
| PatternDetector.SemanticResult | utils/patternDetector.ts:103-108 | a hit becomes an entry with its pattern and the semantic reason, and a score in [0, 1] gives a confidence in [60, 100] |
| PatternDetector.SemanticResults | utils/patternDetector.ts:102-109 | one detection entry per semantic hit |
| PatternDetector.SemanticCandidates | utils/patternDetector.ts:102-109 | semantic entries name a catalog pattern, carry the semantic reason and have confidence in [60, 100] |
| PatternDetector.DetectionConfidences | utils/patternDetector.ts:111-123 | every reported confidence lies in [40, 100], and only the fallback is below 60 |
| PatternDetector.DetectionRanked | utils/patternDetector.ts:111-123 | the detection is ranked and made of candidates (or is the fallback alone); no omitted candidate beats a kept one; ties keep push order, so rules come before semantic hits |
| PatternDetector.DetectionLength | utils/patternDetector.ts:100-123 | with at least two catalog patterns, the detection has two entries when no rule fires and three otherwise |
| PatternDetector.CandidatesEmpty | utils/patternDetector.ts:112 | the candidate list is empty exactly when no rule fires and the catalog is empty |
| PatternDetector.FallbackExactlyWhenNoCandidates | utils/patternDetector.ts:111-120 | "Unclear" is reported exactly when there is no candidate |
| PatternDetector.DetectionIgnoresCase | utils/patternDetector.ts:12 | the detection of a text equals that of its lower-cased form |
| PatternDetector.UnrelatedTextDetection | utils/patternDetector.ts:100-123 | with at least two catalog patterns, text that fires no rule and shares no token with any description gives the first two patterns at confidence 60 with the semantic reason |
| PatternDetector.ZeroScoreResults | utils/patternDetector.ts:102-109 | two hits scoring 0 become two entries at confidence 60 with the semantic reason, in hit order |
| PatternDetector.TiedPairRanked | utils/patternDetector.ts:123 | two candidates of equal confidence come out of sort and `slice(0, 3)` unchanged and in order |
| PatternDetector.UnrelatedTextNamed | utils/patternDetector.ts:100-123 | the same result, stated with the first two catalog names given |
| PatternDetector.NoTokenCharContainsNothing | utils/patternDetector.ts:16-91 | a keyword starting with a letter or digit is never found in text that has no letter or digit |
| PatternDetector.NoTokenCharFiresNothing | utils/patternDetector.ts:15-98 | text without letters or digits fires no rule |
| PatternDetector.UnrelatedTextShipped | utils/patternDetector.ts:100-123 | with the shipped catalog, text that fires no rule and shares no token with any description gives Binary Search and Greedy at confidence 60, not "Unclear" |
| PatternDetector.NoTokenTextShipped | utils/patternDetector.ts:100-123 | with the shipped catalog, text in which no character lower-cases to a letter or digit (such as "???") gives Binary Search and Greedy at confidence 60 |
| PatternDetector.EmptyTextShipped | utils/patternDetector.ts:100-123 | with the shipped catalog, the empty text gives Binary Search and Greedy at confidence 60, not "Unclear" |

## Left out

- Floating point: scores are exact rationals and `Math.round` is exact. The
  model therefore does not reproduce a floating-point error that moves a
  score across a rounding boundary or changes a tie.
- Text.Lower: `toLowerCase` is modelled on ASCII letters only. Most
  non-ASCII letters are deleted by the clean-up either way, but two
  characters lower-case in JavaScript to text containing an ASCII letter:
  - U+0130 (capital I with dot above) becomes "i" plus U+0307. JavaScript
    tokenizes "İNTERVAL" as "interval"; the model gives "nterval".
  - U+212A (Kelvin sign) becomes "k".
  The keyword rules are not affected: no keyword contains "k", and none can
  match across the combining dot.
- `Set` iteration order does not matter. The model's token sets are
  mathematical sets, and only their sizes are used.
- SemanticMatcher.Similarity: requires a non-empty union. The source would
  return `NaN` for two empty token sets, which the catalog requirement rules
  out.
- The catalog is an argument. The source reads `PATTERN_DESCRIPTIONS`
  directly; `DetectWithCatalog`, `CatalogTokenized` and the `*Shipped` lemmas tie the two
  together.
- The six rule `if` blocks and the semantic `forEach` are separate methods,
  `CollectRuleHits` and `PushSemanticResults`, rather than inline in
  `DetectPatternFromText`.
- Not part of this model: the React Native screen (`app/(tabs)/index.tsx`)
  and the backend server (`backend/index.js`, `backend/routes/ai.js`). They
  are I/O around the classifier.
- The stronger property "the highest-confidence rule that fires is always
  among the three reported" is not proved. Only the general
  kept-is-at-least-as-good-as-omitted statement of `DetectionRanked` is.
