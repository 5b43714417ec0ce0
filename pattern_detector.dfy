/**
  The ranked detector: six keyword rules and the two semantic hits are
  collected into one candidate list, which is ranked by descending
  confidence (stably) and cut to three entries; an empty candidate list
  gives the "Unclear" fallback instead.
 */
module PatternDetector {
  import opened Text
  import opened Catalog
  import opened Ranking
  import opened SemanticMatcher

  datatype DetectionResult = DetectionResult(pattern: string, confidence: int, reason: string)

  type RankedDetection = seq<DetectionResult>

  /** The keyword rules, one per `if` block of the detector. */
  datatype Rule = BinarySearch | Greedy | Sorting | SlidingWindow | Graph | DynamicProgramming

  /** Whether a rule fires on the (already lower-cased) input. */
  predicate Fires(rule: Rule, input: string)
    ensures Fires(rule, input) ==> 2 <= |input|
  {
    match rule
    case BinarySearch =>
      || Contains(input, "binary search")
      || (&& Contains(input, "sorted")
          && (|| Contains(input, "search") || Contains(input, "find")
              || Contains(input, "first") || Contains(input, "last")))
    case Greedy =>
      || Contains(input, "activity") || Contains(input, "activities") || Contains(input, "interval")
      || (Contains(input, "maximum") && Contains(input, "select"))
    case Sorting =>
      || Contains(input, "sort") || Contains(input, "sorting")
      || (Contains(input, "arrange") && Contains(input, "order"))
    case SlidingWindow =>
      Contains(input, "subarray") || Contains(input, "window") || Contains(input, "contiguous")
    case Graph =>
      Contains(input, "graph") || Contains(input, "edges") || Contains(input, "nodes")
    case DynamicProgramming =>
      || Contains(input, "dp") || Contains(input, "dynamic programming")
      || Contains(input, "maximize") || Contains(input, "minimize")
  }

  /** The fixed explanation each rule gives. */
  const BinarySearchReason: string := "Searching or finding elements in a sorted structure strongly suggests binary search."
  const GreedyReason: string := "Selecting the maximum number of activities or intervals is a classic greedy problem."
  const SortingReason: string := "The problem explicitly asks to arrange elements in order."
  const SlidingWindowReason: string := "Mentions contiguous subarrays or windows."
  const GraphReason: string := "Nodes and edges indicate graph traversal."
  const DynamicProgrammingReason: string := "Optimization language suggests DP."

  /** The entry a rule appends when it fires: a fixed name, confidence and reason. */
  function RuleHit(rule: Rule): (hit: DetectionResult)
    ensures 65 <= hit.confidence <= 90 && hit.confidence % 5 == 0
  {
    match rule
    case BinarySearch => DetectionResult("Binary Search", 90, BinarySearchReason)
    case Greedy => DetectionResult("Greedy", 85, GreedyReason)
    case Sorting => DetectionResult("Core Algorithm: Sorting", 80, SortingReason)
    case SlidingWindow => DetectionResult("Sliding Window", 75, SlidingWindowReason)
    case Graph => DetectionResult("Graph (BFS / DFS)", 70, GraphReason)
    case DynamicProgramming => DetectionResult("Dynamic Programming", 65, DynamicProgrammingReason)
  }

  /** What one rule contributes to the candidate list. */
  function Emit(rule: Rule, input: string): seq<DetectionResult> {
    if Fires(rule, input) then [RuleHit(rule)] else []
  }

  /** The rule-based candidates, in rule order. */
  function RuleHits(input: string): (hits: seq<DetectionResult>)
    ensures |hits| <= 6
    ensures forall d :: d in hits ==> 65 <= d.confidence <= 90
  {
    Emit(BinarySearch, input) + Emit(Greedy, input) + Emit(Sorting, input)
      + Emit(SlidingWindow, input) + Emit(Graph, input) + Emit(DynamicProgramming, input)
  }

  const SemanticReason: string :=
    "Detected using semantic similarity between the problem description and known pattern definitions."

  const FallbackReason: string := "The description does not strongly match known DSA patterns."

  const Fallback: DetectionResult := DetectionResult("Unclear", 40, FallbackReason)

  /** `Math.round`: the nearest integer, halves rounded up. */
  function Round(x: real): (n: int)
    ensures n as real - 0.5 <= x < n as real + 0.5
  {
    (x + 0.5).Floor
  }

  /** `Math.round(60 + score * 40)`: a score in [0, 1] becomes a confidence in [60, 100]. */
  function SemanticConfidence(score: real): (c: int)
    ensures 0.0 <= score <= 1.0 ==> 60 <= c <= 100
  {
    Round(60.0 + score * 40.0)
  }

  /** The candidate a semantic hit becomes. */
  function SemanticResult(h: SemanticHit): (d: DetectionResult)
    ensures d.pattern == h.pattern && d.reason == SemanticReason
    ensures 0.0 <= h.score <= 1.0 ==> 60 <= d.confidence <= 100
  {
    DetectionResult(h.pattern, SemanticConfidence(h.score), SemanticReason)
  }

  function SemanticResults(hits: seq<SemanticHit>): (results: seq<DetectionResult>)
    ensures |results| == |hits|
  {
    seq(|hits|, i requires 0 <= i < |hits| => SemanticResult(hits[i]))
  }

  function ConfidenceKey(d: DetectionResult): real {
    d.confidence as real
  }

  /** Every candidate, before ranking: the rule hits, then the semantic hits. */
  function Candidates(text: string, catalog: seq<PatternEntry>): (all: seq<DetectionResult>)
    requires ValidCatalog(catalog)
    ensures |all| == |RuleHits(Lower(text))| + (if |catalog| < 2 then |catalog| else 2)
  {
    var input := Lower(text);
    RuleHits(input) + SemanticResults(SemanticMatch(input, catalog))
  }

  /** The ranked detection of `text` against `catalog`. */
  function Detect(text: string, catalog: seq<PatternEntry>): (ranked: RankedDetection)
    requires ValidCatalog(catalog)
    ensures 1 <= |ranked| <= 3
  {
    var all := Candidates(text, catalog);
    if all == [] then [Fallback] else Take(SortDesc(all, ConfidenceKey), 3)
  }

  /** The six keyword `if` blocks: each rule that fires pushes its entry, in rule order. */
  method CollectRuleHits(input: string) returns (results: RankedDetection)
    ensures results == RuleHits(input)
  {
    results := [];
    if Fires(BinarySearch, input) {
      results := results + [RuleHit(BinarySearch)];
    }
    assert results == Emit(BinarySearch, input);
    if Fires(Greedy, input) {
      results := results + [RuleHit(Greedy)];
    }
    assert results == Emit(BinarySearch, input) + Emit(Greedy, input);
    if Fires(Sorting, input) {
      results := results + [RuleHit(Sorting)];
    }
    assert results == Emit(BinarySearch, input) + Emit(Greedy, input) + Emit(Sorting, input);
    if Fires(SlidingWindow, input) {
      results := results + [RuleHit(SlidingWindow)];
    }
    assert results == Emit(BinarySearch, input) + Emit(Greedy, input) + Emit(Sorting, input)
      + Emit(SlidingWindow, input);
    if Fires(Graph, input) {
      results := results + [RuleHit(Graph)];
    }
    assert results == Emit(BinarySearch, input) + Emit(Greedy, input) + Emit(Sorting, input)
      + Emit(SlidingWindow, input) + Emit(Graph, input);
    if Fires(DynamicProgramming, input) {
      results := results + [RuleHit(DynamicProgramming)];
    }
  }

  /**
    `detectPatternFromText`, against a catalog given as a parameter: the
    rules push their entries, the semantic hits are pushed one by one,
    and the list is ranked and cut to three.
   */
  method DetectPatternFromText(text: string, catalog: seq<PatternEntry>) returns (ranked: RankedDetection)
    requires ValidCatalog(catalog)
    ensures ranked == Detect(text, catalog)
  {
    var input := Lower(text);
    var ruleResults := CollectRuleHits(input);
    var results := PushSemanticResults(ruleResults, SemanticMatch(input, catalog));
    assert results == Candidates(text, catalog);
    if |results| == 0 {
      return [Fallback];
    }
    var sorted := InsertionSort(results, ConfidenceKey);
    ranked := Take(sorted, 3);
  }

  /** The `forEach` over the semantic hits: each hit pushes its entry, in hit order. */
  method PushSemanticResults(results: RankedDetection, hits: seq<SemanticHit>) returns (pushed: RankedDetection)
    ensures pushed == results + SemanticResults(hits)
  {
    pushed := results;
    var k := 0;
    while k < |hits|
      invariant 0 <= k <= |hits|
      invariant pushed == results + SemanticResults(hits[..k])
    {
      assert SemanticResults(hits[..k + 1]) == SemanticResults(hits[..k]) + [SemanticResult(hits[k])];
      pushed := pushed + [SemanticResult(hits[k])];
      k := k + 1;
    }
    assert hits[..k] == hits;
  }

  /** `detectPatternFromText` as shipped, with `PATTERN_DESCRIPTIONS` as the catalog. */
  method DetectWithCatalog(text: string) returns (ranked: RankedDetection)
    ensures ValidCatalog(PatternDescriptions) && ranked == Detect(text, PatternDescriptions)
    ensures |ranked| == if RuleHits(Lower(text)) == [] then 2 else 3
    ensures Fallback !in ranked
  {
    CatalogTokenized();
    DetectionLength(text, PatternDescriptions);
    CandidatesEmpty(text, PatternDescriptions);
    FallbackExactlyWhenNoCandidates(text, PatternDescriptions);
    ranked := DetectPatternFromText(text, PatternDescriptions);
  }

  // ---------------------------------------------------------------------
  // The rules

  /** A rule's entry is among the rule hits exactly when the rule fires. */
  lemma RuleHitsFire(input: string)
    ensures forall rule :: RuleHit(rule) in RuleHits(input) <==> Fires(rule, input)
    ensures forall d :: d in RuleHits(input) <==> exists rule :: Fires(rule, input) && d == RuleHit(rule)
  {
    var hits := RuleHits(input);
    assert forall d :: d in hits <==>
      || d in Emit(BinarySearch, input) || d in Emit(Greedy, input) || d in Emit(Sorting, input)
      || d in Emit(SlidingWindow, input) || d in Emit(Graph, input) || d in Emit(DynamicProgramming, input);
    forall rule ensures RuleHit(rule) in hits <==> Fires(rule, input) {
    }
  }

  /** The rule hits come in rule order, which is strictly descending confidence. */
  lemma RuleHitsDescending(input: string)
    ensures var hits := RuleHits(input);
      forall i, j :: 0 <= i < j < |hits| ==> hits[i].confidence > hits[j].confidence
  {
  }

  /** The rule table, in the order `RuleHits` tries the rules: confidences 90, 85, 80, 75, 70, 65. */
  lemma RuleTable()
    ensures RuleHit(BinarySearch).confidence == 90 && RuleHit(Greedy).confidence == 85
    ensures RuleHit(Sorting).confidence == 80 && RuleHit(SlidingWindow).confidence == 75
    ensures RuleHit(Graph).confidence == 70 && RuleHit(DynamicProgramming).confidence == 65
    ensures RuleHit(Sorting).pattern == "Core Algorithm: Sorting"
  {
  }

  /** "sorted" contains "sort": the Binary Search rule's sorted branch always fires the Sorting rule too. */
  lemma SortedFiresSorting(input: string)
    requires Contains(input, "sorted")
    ensures Fires(Sorting, input)
  {
    ContainsPrefix("sorted", 4);
    assert "sorted"[..4] == "sort";
    ContainsTransitive(input, "sorted", "sort");
  }

  /** The "sorting" test of the Sorting rule is subsumed by its "sort" test. */
  lemma SortingTestSubsumed(input: string)
    ensures Fires(Sorting, input)
        <==> Contains(input, "sort") || (Contains(input, "arrange") && Contains(input, "order"))
  {
    if Contains(input, "sorting") {
      ContainsPrefix("sorting", 4);
      assert "sorting"[..4] == "sort";
      ContainsTransitive(input, "sorting", "sort");
    }
  }

  /** "Two Pointers" is only a catalog pattern; "Core Algorithm: Sorting" is only a rule. */
  lemma RuleAndCatalogNames()
    ensures forall rule :: RuleHit(rule).pattern != "Two Pointers"
    ensures PatternDescriptions[5].pattern == "Two Pointers"
    ensures forall e :: e in PatternDescriptions ==> e.pattern != "Core Algorithm: Sorting"
  {
  }

  // ---------------------------------------------------------------------
  // Semantic confidences

  lemma IntScaleGap(d: int, k: int, q: int)
    requires 0 < d && q < k
    ensures d * q + d <= d * k
  {
    assert d * k - d * q - d == d * (k - q - 1);
  }

  /** The quotient is the unique q with d*q <= n < d*q + d. */
  lemma DivByBounds(n: int, d: int, q: int)
    requires 0 < d && d * q <= n < d * q + d
    ensures n / d == q
  {
    var k := n / d;
    if k > q {
      IntScaleGap(d, k, q);
      assert false;
    } else if k < q {
      IntScaleGap(d, q, k);
      assert false;
    }
  }

  /** Rounding 60 + 40x gives the integer part of 60.5 + 40x. */
  lemma ConfidenceBounds(x: real)
    ensures var c := SemanticConfidence(x) as real; c <= 60.0 + x * 40.0 + 0.5 < c + 1.0
  {
  }

  /** Scaled by 2u, the rounded quantity 60.5 + 40i/u is the integer 121u + 80i. */
  lemma ConfidenceScaled(i: nat, u: nat)
    requires 0 < u
    ensures (60.0 + (i as real / u as real) * 40.0 + 0.5) * (2 * u) as real == (121 * u + 80 * i) as real
  {
    var x := i as real / u as real;
    assert x * u as real == i as real;
  }

  /** Scaling c <= y < c + 1 by m > 0, where y * m == n. */
  lemma RealPartScaled(c: real, y: real, m: real, n: real)
    requires 0.0 < m && c <= y < c + 1.0 && y * m == n
    ensures c * m <= n < c * m + m
  {
    ScaledBelow(c, y, m, n);
    ScaledAbove(c, y, m, n);
  }

  lemma ScaledBelow(c: real, y: real, m: real, n: real)
    requires 0.0 < m && c <= y && y * m == n
    ensures c * m <= n
  {
  }

  lemma ScaledAbove(c: real, y: real, m: real, n: real)
    requires 0.0 < m && y < c + 1.0 && y * m == n
    ensures n < c * m + m
  {
    var d := c + 1.0 - y;
    assert 0.0 < d * m;
    assert d * m == c * m + m - y * m;
  }

  lemma IntegerPartScaled(c: int, y: real, u: nat, n: int)
    requires 0 < u && c as real <= y < c as real + 1.0 && y * (2 * u) as real == n as real
    ensures 2 * u * c <= n < 2 * u * c + 2 * u
  {
    RealPartScaled(c as real, y, (2 * u) as real, n as real);
    CastMul(c, 2 * u);
    var lo := c * (2 * u);
    assert lo as real <= n as real < lo as real + (2 * u) as real;
    assert lo == 2 * u * c;
  }

  lemma CastMul(a: int, b: int)
    ensures (a * b) as real == a as real * b as real
  {
  }

  /**
    For a score i/u (i shared tokens out of u in the union) the confidence
    is the integer quotient (121u + 80i) div 2u: rounding needs no real
    arithmetic.
   */
  lemma SemanticConfidenceExact(i: nat, u: nat)
    requires 0 < u && i <= u
    ensures SemanticConfidence(i as real / u as real) == (121 * u + 80 * i) / (2 * u)
  {
    var x := i as real / u as real;
    ConfidenceBounds(x);
    ConfidenceScaled(i, u);
    IntegerPartScaled(SemanticConfidence(x), 60.0 + x * 40.0 + 0.5, u, 121 * u + 80 * i);
    DivByBounds(121 * u + 80 * i, 2 * u, SemanticConfidence(x));
  }

  /** A larger score never gives a smaller confidence. */
  lemma SemanticConfidenceMonotone(a: real, b: real)
    requires a <= b
    ensures SemanticConfidence(a) <= SemanticConfidence(b)
  {
  }

  // ---------------------------------------------------------------------
  // The candidate list and the ranked detection

  /** Semantic candidates carry catalog names, the semantic reason and confidences in [60, 100]. */
  lemma SemanticCandidates(input: string, catalog: seq<PatternEntry>)
    requires ValidCatalog(catalog)
    ensures forall d :: d in SemanticResults(SemanticMatch(input, catalog)) ==>
      && 60 <= d.confidence <= 100
      && d.reason == SemanticReason
      && exists i :: 0 <= i < |catalog| && d.pattern == catalog[i].pattern
  {
    var hits := SemanticMatch(input, catalog);
    SemanticMatchHits(input, catalog);
    forall d | d in SemanticResults(hits)
      ensures && 60 <= d.confidence <= 100
              && d.reason == SemanticReason
              && exists i :: 0 <= i < |catalog| && d.pattern == catalog[i].pattern
    {
      var k :| 0 <= k < |hits| && SemanticResults(hits)[k] == d;
      assert hits[k] in hits;
    }
  }

  /** Every confidence reported lies in [40, 100]; 40 only for the fallback. */
  lemma DetectionConfidences(text: string, catalog: seq<PatternEntry>)
    requires ValidCatalog(catalog)
    ensures forall d :: d in Detect(text, catalog) ==> 40 <= d.confidence <= 100
    ensures forall d :: d in Detect(text, catalog) && d.confidence < 60 ==> d == Fallback
  {
    var all := Candidates(text, catalog);
    var input := Lower(text);
    SemanticCandidates(input, catalog);
    TakeSortDescFromInput(all, ConfidenceKey, 3);
    forall d | d in all ensures 60 <= d.confidence <= 100 {
      if d !in RuleHits(input) {
        assert d in SemanticResults(SemanticMatch(input, catalog));
      }
    }
  }

  /**
    The detection is ranked by non-increasing confidence; each entry is a
    candidate (or the fallback, when there are none); no candidate left out
    has a higher confidence than an entry kept; and entries of equal
    confidence keep their insertion order, rules before semantic hits.
   */
  lemma DetectionRanked(text: string, catalog: seq<PatternEntry>)
    requires ValidCatalog(catalog)
    ensures var ranked, all := Detect(text, catalog), Candidates(text, catalog);
      && SortedDesc(ranked, ConfidenceKey)
      && (all == [] ==> ranked == [Fallback])
      && (all != [] ==> forall d :: d in ranked ==> d in all)
      && (forall x :: x in all ==> x in ranked || forall d :: d in ranked ==> d.confidence >= x.confidence)
      && (all != [] ==> forall v :: Filter(ranked, ConfidenceKey, v) <= Filter(all, ConfidenceKey, v))
  {
    var all := Candidates(text, catalog);
    if all != [] {
      TakeSortDescFromInput(all, ConfidenceKey, 3);
      TakeSortDescKeepsBest(all, ConfidenceKey, 3);
      forall v ensures Filter(Detect(text, catalog), ConfidenceKey, v) <= Filter(all, ConfidenceKey, v) {
        TakeSortDescStable(all, ConfidenceKey, 3, v);
      }
    }
  }

  /**
    With a catalog of at least two patterns there are always two semantic
    candidates, so the detection has min(3, rules fired + 2) entries: two
    when no rule fires, three otherwise.
   */
  lemma DetectionLength(text: string, catalog: seq<PatternEntry>)
    requires ValidCatalog(catalog) && 2 <= |catalog|
    ensures |Detect(text, catalog)| == if RuleHits(Lower(text)) == [] then 2 else 3
  {
    TakeSortDescFromInput(Candidates(text, catalog), ConfidenceKey, 3);
  }

  /** There are no candidates exactly when no rule fires and the catalog is empty. */
  lemma CandidatesEmpty(text: string, catalog: seq<PatternEntry>)
    requires ValidCatalog(catalog)
    ensures Candidates(text, catalog) == [] <==> RuleHits(Lower(text)) == [] && catalog == []
  {
  }

  /** The "Unclear" fallback is reported exactly when there is no candidate at all. */
  lemma FallbackExactlyWhenNoCandidates(text: string, catalog: seq<PatternEntry>)
    requires ValidCatalog(catalog)
    ensures Fallback in Detect(text, catalog) <==> Candidates(text, catalog) == []
  {
    var all := Candidates(text, catalog);
    if all != [] {
      var input := Lower(text);
      SemanticCandidates(input, catalog);
        TakeSortDescFromInput(all, ConfidenceKey, 3);
      forall d | d in Detect(text, catalog) ensures d.confidence >= 60 {
        assert d in all;
      }
    }
  }

  /** Case does not matter: the detection only sees the lower-cased text. */
  lemma DetectionIgnoresCase(text: string, catalog: seq<PatternEntry>)
    requires ValidCatalog(catalog)
    ensures Detect(Lower(text), catalog) == Detect(text, catalog)
  {
    LowerIdempotent(text);
  }

  /**
    Text that fires no rule and shares no token with any description scores
    0 everywhere: the result is the first two catalog patterns at confidence
    60, not the fallback.
   */
  lemma UnrelatedTextDetection(text: string, catalog: seq<PatternEntry>)
    requires ValidCatalog(catalog) && 2 <= |catalog|
    requires RuleHits(Lower(text)) == []
    requires forall i :: 0 <= i < |catalog| ==>
      Tokenize(text) * Tokenize(catalog[i].description) == {}
    ensures Detect(text, catalog) == [
      DetectionResult(catalog[0].pattern, 60, SemanticReason),
      DetectionResult(catalog[1].pattern, 60, SemanticReason)]
  {
    var input := Lower(text);
    TokenizeIgnoresCase(text);
    SemanticMatchNoSharedTokens(input, catalog);
    var hits := SemanticMatch(input, catalog);
    assert hits == [SemanticHit(catalog[0].pattern, 0.0), SemanticHit(catalog[1].pattern, 0.0)];
    ZeroScoreResults(catalog[0].pattern, catalog[1].pattern);
    var all := Candidates(text, catalog);
    assert all == SemanticResults(hits);
    TiedPairRanked(all);
  }

  /** Two hits scoring 0 become two candidates at confidence 60, in the same order. */
  lemma ZeroScoreResults(first: string, second: string)
    ensures SemanticResults([SemanticHit(first, 0.0), SemanticHit(second, 0.0)]) == [
      DetectionResult(first, 60, SemanticReason),
      DetectionResult(second, 60, SemanticReason)]
  {
    assert SemanticConfidence(0.0) == 60;
  }

  /** Two candidates with equal confidence are reported as they are: the sort is stable. */
  lemma TiedPairRanked(all: seq<DetectionResult>)
    requires |all| == 2 && all[0].confidence == all[1].confidence
    ensures Take(SortDesc(all, ConfidenceKey), 3) == all
  {
    forall d | d in all ensures ConfidenceKey(d) == all[0].confidence as real {
    }
    SortDescAllEqual(all, ConfidenceKey, all[0].confidence as real);
  }

  /** `UnrelatedTextDetection`, with the first two catalog names given. */
  lemma UnrelatedTextNamed(text: string, catalog: seq<PatternEntry>, first: string, second: string)
    requires ValidCatalog(catalog) && 2 <= |catalog|
    requires catalog[0].pattern == first && catalog[1].pattern == second
    requires RuleHits(Lower(text)) == []
    requires forall i :: 0 <= i < |catalog| ==>
      Tokenize(text) * Tokenize(catalog[i].description) == {}
    ensures Detect(text, catalog) == [
      DetectionResult(first, 60, SemanticReason),
      DetectionResult(second, 60, SemanticReason)]
  {
    UnrelatedTextDetection(text, catalog);
  }

  /** A keyword that starts with a letter or digit never occurs in text holding none. */
  lemma NoTokenCharContainsNothing(input: string, sub: string)
    requires forall i :: 0 <= i < |input| ==> !IsTokenChar(input[i])
    requires sub != [] && IsTokenChar(sub[0])
    ensures !Contains(input, sub)
  {
    forall i | 0 <= i <= |input| - |sub| ensures !OccursAt(input, sub, i) {
      assert input[i..i + |sub|][0] == input[i];
    }
  }

  /** Text without letters or digits, such as "???", fires no rule: every keyword starts with a letter. */
  lemma NoTokenCharFiresNothing(input: string)
    requires forall i :: 0 <= i < |input| ==> !IsTokenChar(input[i])
    ensures RuleHits(input) == []
  {
    NoTokenCharContainsNothing(input, "binary search");
    NoTokenCharContainsNothing(input, "sorted");
    assert !Fires(BinarySearch, input);
    NoTokenCharContainsNothing(input, "activity");
    NoTokenCharContainsNothing(input, "activities");
    NoTokenCharContainsNothing(input, "interval");
    NoTokenCharContainsNothing(input, "maximum");
    assert !Fires(Greedy, input);
    NoTokenCharContainsNothing(input, "sort");
    NoTokenCharContainsNothing(input, "sorting");
    NoTokenCharContainsNothing(input, "arrange");
    assert !Fires(Sorting, input);
    NoTokenCharContainsNothing(input, "subarray");
    NoTokenCharContainsNothing(input, "window");
    NoTokenCharContainsNothing(input, "contiguous");
    assert !Fires(SlidingWindow, input);
    NoTokenCharContainsNothing(input, "graph");
    NoTokenCharContainsNothing(input, "edges");
    NoTokenCharContainsNothing(input, "nodes");
    assert !Fires(Graph, input);
    NoTokenCharContainsNothing(input, "dp");
    NoTokenCharContainsNothing(input, "dynamic programming");
    NoTokenCharContainsNothing(input, "maximize");
    NoTokenCharContainsNothing(input, "minimize");
    assert !Fires(DynamicProgramming, input);
  }

  /**
    With the shipped catalog, text in which no character lower-cases to a
    letter or digit (the empty text, "???", "!! --") is detected as Binary
    Search and Greedy at 60, not "Unclear".
   */
  lemma NoTokenTextShipped(text: string)
    requires forall i :: 0 <= i < |text| ==> !IsTokenChar(LowerChar(text[i]))
    ensures ValidCatalog(PatternDescriptions)
    ensures Detect(text, PatternDescriptions) == [
      DetectionResult("Binary Search", 60, SemanticReason),
      DetectionResult("Greedy", 60, SemanticReason)]
  {
    NoTokenCharFiresNothing(Lower(text));
    TokenizeEmpty(text);
    forall i | 0 <= i < |PatternDescriptions|
      ensures Tokenize(text) * Tokenize(PatternDescriptions[i].description) == {}
    {
    }
    UnrelatedTextShipped(text);
  }

  /**
    With the shipped catalog, text that fires no rule and shares no token
    with any description is detected as Binary Search and Greedy at 60.
   */
  lemma UnrelatedTextShipped(text: string)
    requires RuleHits(Lower(text)) == []
    requires forall i :: 0 <= i < |PatternDescriptions| ==>
      Tokenize(text) * Tokenize(PatternDescriptions[i].description) == {}
    ensures ValidCatalog(PatternDescriptions)
    ensures Detect(text, PatternDescriptions) == [
      DetectionResult("Binary Search", 60, SemanticReason),
      DetectionResult("Greedy", 60, SemanticReason)]
  {
    CatalogTokenized();
    CatalogHead();
    UnrelatedTextNamed(text, PatternDescriptions, "Binary Search", "Greedy");
  }

  /** With the shipped catalog, the empty text is detected as Binary Search and Greedy at 60. */
  lemma EmptyTextShipped(text: string)
    requires |text| == 0
    ensures ValidCatalog(PatternDescriptions)
    ensures Detect(text, PatternDescriptions) == [
      DetectionResult("Binary Search", 60, SemanticReason),
      DetectionResult("Greedy", 60, SemanticReason)]
  {
    NoTokenTextShipped(text);
  }
}
