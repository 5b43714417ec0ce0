/**
  The fixed reference corpus of the semantic matcher: six named patterns,
  each with a short description, in declaration order.
 */
module Catalog {

  datatype PatternEntry = PatternEntry(pattern: string, description: string)

  const BinarySearchDescription: string :=
    "Searching for an element or boundary in a sorted array or list efficiently"
  const GreedyDescription: string :=
    "Selecting the best local option repeatedly to achieve a global optimum, such as activity selection or interval scheduling"
  const SlidingWindowDescription: string :=
    "Finding subarrays or contiguous segments with certain properties"
  const DynamicProgrammingDescription: string :=
    "Solving optimization problems with overlapping subproblems and optimal substructure"
  const GraphDescription: string :=
    "Traversing nodes and edges to find paths, connectivity, or components"
  const TwoPointersDescription: string :=
    "Using two indices moving through data structures to reduce time complexity"

  /** `PATTERN_DESCRIPTIONS`. Its order fixes the tie-break order of the semantic ranking. */
  const PatternDescriptions: seq<PatternEntry> := [
    PatternEntry("Binary Search", BinarySearchDescription),
    PatternEntry("Greedy", GreedyDescription),
    PatternEntry("Sliding Window", SlidingWindowDescription),
    PatternEntry("Dynamic Programming", DynamicProgrammingDescription),
    PatternEntry("Graph (BFS / DFS)", GraphDescription),
    PatternEntry("Two Pointers", TwoPointersDescription)
  ]

  /** The names of the catalog's patterns, in catalog order. */
  function PatternNames(catalog: seq<PatternEntry>): (names: seq<string>)
    ensures |names| == |catalog|
    ensures forall i :: 0 <= i < |catalog| ==> names[i] == catalog[i].pattern
  {
    if catalog == [] then [] else [catalog[0].pattern] + PatternNames(catalog[1..])
  }

  /** The catalog holds six patterns, in this order. */
  lemma CatalogOrder()
    ensures PatternNames(PatternDescriptions) == [
      "Binary Search", "Greedy", "Sliding Window", "Dynamic Programming",
      "Graph (BFS / DFS)", "Two Pointers"]
  {
  }

  /** The first two catalog patterns, which win every all-zero ranking. */
  lemma CatalogHead()
    ensures 2 <= |PatternDescriptions|
    ensures PatternDescriptions[0].pattern == "Binary Search"
    ensures PatternDescriptions[1].pattern == "Greedy"
  {
  }

  /** No pattern name occurs twice in the catalog. */
  lemma CatalogNamesDistinct()
    ensures forall i, j :: 0 <= i < j < |PatternDescriptions| ==>
      PatternDescriptions[i].pattern != PatternDescriptions[j].pattern
  {
  }
}
