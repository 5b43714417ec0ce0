/**
  The semantic matcher: a bag-of-words comparison of the input with each
  catalog description. Text is reduced to a set of tokens, two token sets
  are compared by their Jaccard index, and the two best-scoring catalog
  patterns are returned. Scores are exact rationals (Dafny `real`).
 */
module SemanticMatcher {
  import opened Text
  import opened Catalog
  import opened Ranking

  /** A character a token can hold: `[a-z0-9]`. */
  predicate IsTokenChar(c: char) {
    'a' <= c <= 'z' || '0' <= c <= '9'
  }

  /** A character the clean-up keeps: `[a-z0-9 ]`. */
  predicate Kept(c: char) {
    IsTokenChar(c) || c == ' '
  }

  predicate AllSpaces(s: string) {
    forall i :: 0 <= i < |s| ==> s[i] == ' '
  }

  predicate NoTokenChar(s: string) {
    forall i :: 0 <= i < |s| ==> !IsTokenChar(s[i])
  }

  /** `s.replace(/[^a-z0-9 ]/g, "")`: deletes every character that is not kept. */
  function Strip(s: string): (r: string)
    ensures forall c :: c in r ==> Kept(c)
  {
    if s == [] then [] else (if Kept(s[0]) then [s[0]] else []) + Strip(s[1..])
  }

  /**
    `s.split(" ")`: the pieces between single spaces, empty pieces included;
    `""` splits into `[""]`.
   */
  function Split(s: string): (pieces: seq<string>)
    ensures |pieces| >= 1
  {
    if s == [] then [""]
    else if s[0] == ' ' then [""] + Split(s[1..])
    else
      var rest := Split(s[1..]);
      [[s[0]] + rest[0]] + rest[1..]
  }

  /** `tokenize`: lower-case, strip, split on spaces, drop empty pieces, collect as a set. */
  function Tokenize(text: string): (tokens: set<string>)
    ensures forall w :: w in tokens ==> w != "" && forall c :: c in w ==> IsTokenChar(c)
  {
    Words(Strip(Lower(text)))
  }

  /**
    The `filter(Boolean)` and `new Set` steps: the non-empty pieces of the
    split, as a set; a word holds no space and only characters of `s`.
   */
  function Words(s: string): (words: set<string>)
    ensures forall w :: w in words ==> w != "" && forall c :: c in w ==> c != ' ' && c in s
  {
    SplitPieces(s);
    set w | w in Split(s) && w != ""
  }

  /** `similarity`: the Jaccard index |a ∩ b| / |a ∪ b| of two token sets. */
  function Similarity(a: set<string>, b: set<string>): (r: real)
    requires a + b != {}
    ensures 0.0 <= r <= 1.0
    ensures r == 0.0 <==> a * b == {}
    ensures r == 1.0 <==> a == b
  {
    JaccardCardinalities(a, b);
    RatioBounds(|a * b|, |a + b|);
    assert a == b ==> a * b == a + b;
    |a * b| as real / |a + b| as real
  }

  /** A ratio of naturals s/t with s <= t lies in [0, 1], is 0 only for s = 0 and 1 only for s = t. */
  lemma RatioBounds(s: nat, t: nat)
    requires 0 < t && s <= t
    ensures var q := s as real / t as real;
      && 0.0 <= q <= 1.0 && (q == 0.0 <==> s == 0) && (q == 1.0 <==> s == t)
  {
    var q := s as real / t as real;
    assert q * t as real == s as real;
  }

  /** One catalog pattern with its similarity to the input. */
  datatype SemanticHit = SemanticHit(pattern: string, score: real)

  function HitScore(h: SemanticHit): real {
    h.score
  }

  /** Every description of the catalog has at least one token, so no similarity divides by zero. */
  ghost predicate ValidCatalog(catalog: seq<PatternEntry>) {
    forall i :: 0 <= i < |catalog| ==> Tokenize(catalog[i].description) != {}
  }

  /** The input's similarity to every catalog description, in catalog order (the `map` step). */
  function Scores(tokens: set<string>, catalog: seq<PatternEntry>): (hits: seq<SemanticHit>)
    requires ValidCatalog(catalog)
    ensures |hits| == |catalog|
  {
    seq(|catalog|, i requires 0 <= i < |catalog| =>
      SemanticHit(catalog[i].pattern, Similarity(tokens, Tokenize(catalog[i].description))))
  }

  /** `semanticMatch`: the catalog ranked by descending similarity, stably, cut to two. */
  function SemanticMatch(inputText: string, catalog: seq<PatternEntry>): (top: seq<SemanticHit>)
    requires ValidCatalog(catalog)
    ensures |top| == if |catalog| < 2 then |catalog| else 2
  {
    Take(SortDesc(Scores(Tokenize(inputText), catalog), HitScore), 2)
  }

  // ---------------------------------------------------------------------
  // Set cardinalities behind the Jaccard index

  /** The intersection is no larger than the union, and equally large only when the sets agree. */
  lemma JaccardCardinalities(a: set<string>, b: set<string>)
    ensures |a * b| <= |a + b|
    ensures |a * b| == |a + b| ==> a == b
    ensures |a + b| > 0 <==> a + b != {}
    ensures |a * b| == 0 <==> a * b == {}
  {
    var extra := (a + b) - (a * b);
    assert a + b == (a * b) + extra;
    assert (a * b) !! extra;
    if |a * b| == |a + b| {
      assert extra == {};
      assert a == a + b && b == a + b;
    }
  }

  /** Jaccard similarity does not depend on the order of its arguments. */
  lemma SimilaritySymmetric(a: set<string>, b: set<string>)
    requires a + b != {}
    ensures Similarity(a, b) == Similarity(b, a)
  {
    assert a * b == b * a;
    assert a + b == b + a;
  }

  // ---------------------------------------------------------------------
  // Splitting on spaces

  /** Pieces never hold a space, and only hold characters of the split string. */
  lemma {:induction false} SplitPieces(s: string)
    ensures forall w, c :: w in Split(s) && c in w ==> c != ' ' && c in s
  {
    if s != [] {
      SplitPieces(s[1..]);
      var rest := Split(s[1..]);
      if s[0] != ' ' {
        assert forall c :: c in [s[0]] + rest[0] ==> c == s[0] || c in rest[0];
        assert forall w :: w in Split(s) ==> w == [s[0]] + rest[0] || w in rest;
      }
    }
  }

  /** A space splits a string into the pieces of its two sides. */
  lemma SplitCons(c: char, s: string)
    ensures c == ' ' ==> Split([c] + s) == [""] + Split(s)
    ensures c != ' ' ==> Split([c] + s) == [[c] + Split(s)[0]] + Split(s)[1..]
  {
    assert ([c] + s)[0] == c && ([c] + s)[1..] == s;
  }

  lemma {:induction false} SplitJoin(u: string, v: string)
    ensures Split(u + " " + v) == Split(u) + Split(v)
  {
    if u == [] {
      assert u + " " + v == [' '] + v;
      SplitCons(' ', v);
    } else {
      var c, w := u[0], u[1..];
      assert u == [c] + w;
      assert u + " " + v == [c] + (w + " " + v);
      SplitJoin(w, v);
      SplitCons(c, w + " " + v);
      SplitCons(c, w);
      var a, b := Split(w), Split(v);
      if c != ' ' {
        assert (a + b)[0] == a[0];
        assert (a + b)[1..] == a[1..] + b;
      }
    }
  }

  /** Every piece is empty exactly when the string is made of spaces only. */
  lemma {:induction false} SplitAllEmpty(s: string)
    ensures (forall w :: w in Split(s) ==> w == "") <==> AllSpaces(s)
    ensures forall w :: w in Split(s) && w != "" ==> !AllSpaces(s)
  {
    if s != [] {
      SplitAllEmpty(s[1..]);
      assert AllSpaces(s) <==> s[0] == ' ' && AllSpaces(s[1..]) by {
        assert forall i :: 0 < i < |s| ==> s[i] == s[1..][i - 1];
      }
      if s[0] == ' ' {
        assert forall w :: w in Split(s) <==> w == "" || w in Split(s[1..]);
      } else {
        assert Split(s)[0] != "" && Split(s)[0] in Split(s);
      }
    }
  }

  // ---------------------------------------------------------------------
  // Stripping

  lemma {:induction false} StripAppend(a: string, b: string)
    ensures Strip(a + b) == Strip(a) + Strip(b)
  {
    if a == [] {
      assert a + b == b;
    } else {
      assert (a + b)[0] == a[0];
      assert (a + b)[1..] == a[1..] + b;
      StripAppend(a[1..], b);
    }
  }

  lemma AllSpacesAppend(x: string, y: string)
    ensures AllSpaces(x + y) <==> AllSpaces(x) && AllSpaces(y)
  {
    if AllSpaces(x + y) {
      forall i | 0 <= i < |x| ensures x[i] == ' ' {
        assert (x + y)[i] == x[i];
      }
      forall i | 0 <= i < |y| ensures y[i] == ' ' {
        assert (x + y)[|x| + i] == y[i];
      }
    }
    if AllSpaces(x) && AllSpaces(y) {
      forall i | 0 <= i < |x + y| ensures (x + y)[i] == ' ' {
        if i >= |x| {
          assert (x + y)[i] == y[i - |x|];
        }
      }
    }
  }

  /** The stripped text is all spaces exactly when the text holds no token character. */
  lemma {:induction false} StripAllSpaces(s: string)
    ensures AllSpaces(Strip(s)) <==> NoTokenChar(s)
  {
    if s != [] {
      StripAllSpaces(s[1..]);
      var head := if Kept(s[0]) then [s[0]] else [];
      var t := Strip(s[1..]);
      assert Strip(s) == head + t;
      assert NoTokenChar(s) <==> !IsTokenChar(s[0]) && NoTokenChar(s[1..]) by {
        assert forall i :: 0 < i < |s| ==> s[i] == s[1..][i - 1];
      }
      AllSpacesAppend(head, t);
    }
  }

  // ---------------------------------------------------------------------
  // Properties of tokenize

  /** Tokenizing ignores case. */
  lemma TokenizeIgnoresCase(text: string)
    ensures Tokenize(Lower(text)) == Tokenize(text)
  {
    LowerIdempotent(text);
  }

  /** A space separates tokens: the tokens of a join are the tokens of both sides. */
  lemma TokenizeJoin(x: string, y: string)
    ensures Tokenize(x + " " + y) == Tokenize(x) + Tokenize(y)
  {
    LowerAppend(x + " ", y);
    LowerAppend(x, " ");
    var lx, ly := Lower(x), Lower(y);
    assert Lower(" ") == " ";
    StripAppend(lx + " ", ly);
    StripAppend(lx, " ");
    assert Strip(" ") == " ";
    SplitJoin(Strip(lx), Strip(ly));
  }

  /** Tokenizing ignores word order. */
  lemma TokenizeWordOrder(x: string, y: string)
    ensures Tokenize(x + " " + y) == Tokenize(y + " " + x)
  {
    TokenizeJoin(x, y);
    TokenizeJoin(y, x);
  }

  /** Tokenizing ignores repeated words. */
  lemma TokenizeRepetition(x: string)
    ensures Tokenize(x + " " + x) == Tokenize(x)
  {
    TokenizeJoin(x, x);
  }

  /**
    Only the space separates tokens: any other character outside `[a-z0-9]`
    (punctuation, a tab, a newline) is deleted and joins its neighbours.
   */
  lemma TokenizeDeletes(x: string, c: char, y: string)
    requires !Kept(LowerChar(c))
    ensures Tokenize(x + [c] + y) == Tokenize(x + y)
  {
    LowerAppend(x + [c], y);
    LowerAppend(x, [c]);
    LowerAppend(x, y);
    var lx, d, ly := Lower(x), LowerChar(c), Lower(y);
    assert Lower([c]) == [d];
    assert Lower(x + [c] + y) == lx + [d] + ly;
    StripAppend(lx + [d], ly);
    StripAppend(lx, [d]);
    StripAppend(lx, ly);
    assert Strip([d]) == [];
    assert Strip(lx + [d] + ly) == Strip(lx + ly);
    assert Strip(Lower(x + [c] + y)) == Strip(Lower(x + y));
  }

  /** A piece of text without spaces splits into itself. */
  lemma {:induction false} SplitWord(w: string)
    requires forall i :: 0 <= i < |w| ==> w[i] != ' '
    ensures w != "" ==> Split(w) == [w]
  {
    if |w| == 1 {
      assert w[1..] == [];
      assert Split(w[1..]) == [""];
      assert Split(w) == [[w[0]] + ""];
      assert [w[0]] + "" == w;
    } else if |w| > 1 {
      SplitWord(w[1..]);
      assert [w[0]] + w[1..] == w;
    }
  }

  /** Text made of token characters only is kept whole by the strip. */
  lemma {:induction false} StripKeeps(w: string)
    requires forall i :: 0 <= i < |w| ==> IsTokenChar(w[i])
    ensures Strip(w) == w
  {
    if w != [] {
      StripKeeps(w[1..]);
      assert [w[0]] + w[1..] == w;
    }
  }

  /** A single word over `[a-z0-9]` is its own only token. */
  lemma TokenizeWord(w: string)
    requires w != ""
    requires forall i :: 0 <= i < |w| ==> IsTokenChar(w[i])
    ensures Tokenize(w) == {w}
  {
    assert Lower(w) == w;
    StripKeeps(w);
    SplitWord(w);
  }

  /** A tab joins the words around it into one token. */
  lemma TabJoinsWords()
    ensures Tokenize("ab\tcd") == {"abcd"}
  {
    assert "ab\tcd" == "ab" + ['\t'] + "cd";
    TokenizeDeletes("ab", '\t', "cd");
    assert "ab" + "cd" == "abcd";
    TokenizeWord("abcd");
  }

  /** A text has no token exactly when none of its characters lower-cases into `[a-z0-9]`. */
  lemma TokenizeEmpty(text: string)
    ensures Tokenize(text) == {} <==> forall i :: 0 <= i < |text| ==> !IsTokenChar(LowerChar(text[i]))
  {
    var lt := Lower(text);
    var t := Strip(lt);
    SplitAllEmpty(t);
    StripAllSpaces(lt);
    assert NoTokenChar(lt) <==> forall i :: 0 <= i < |text| ==> !IsTokenChar(LowerChar(text[i]));
    if Tokenize(text) == {} {
      forall w | w in Split(t) ensures w == "" {
        assert w !in Words(t);
      }
      assert AllSpaces(t);
    } else {
      var w :| w in Words(t);
      assert w in Split(t) && w != "";
      assert !AllSpaces(t);
      assert !NoTokenChar(lt);
    }
  }

  /** Text holding a letter or a digit anywhere has at least one token. */
  lemma TokenizeNonEmpty(text: string, i: nat)
    requires i < |text| && IsTokenChar(LowerChar(text[i]))
    ensures Tokenize(text) != {}
  {
    TokenizeEmpty(text);
  }

  /** Every description of the catalog has tokens: each ends with a lower-case letter. */
  lemma CatalogTokenized()
    ensures ValidCatalog(PatternDescriptions)
  {
    forall i | 0 <= i < |PatternDescriptions|
      ensures Tokenize(PatternDescriptions[i].description) != {}
    {
      var d := PatternDescriptions[i].description;
      assert |d| > 0 && 'a' <= d[|d| - 1] <= 'z';
      TokenizeNonEmpty(d, |d| - 1);
    }
  }

  // ---------------------------------------------------------------------
  // Properties of semanticMatch

  /**
    The two hits are entries of the full scoring, ranked by descending score;
    every catalog pattern left out scores no higher than either hit; and
    among equal scores the hits come in catalog order.
   */
  lemma SemanticMatchRanked(inputText: string, catalog: seq<PatternEntry>)
    requires ValidCatalog(catalog)
    ensures var top, all := SemanticMatch(inputText, catalog), Scores(Tokenize(inputText), catalog);
      && SortedDesc(top, HitScore)
      && (forall h :: h in top ==> h in all)
      && (forall x :: x in all ==> x in top || forall h :: h in top ==> h.score >= x.score)
      && (forall v :: Filter(top, HitScore, v) <= Filter(all, HitScore, v))
  {
    var all := Scores(Tokenize(inputText), catalog);
    TakeSortDescFromInput(all, HitScore, 2);
    TakeSortDescKeepsBest(all, HitScore, 2);
    forall v ensures Filter(SemanticMatch(inputText, catalog), HitScore, v) <= Filter(all, HitScore, v) {
      TakeSortDescStable(all, HitScore, 2, v);
    }
  }

  /** Each hit names a catalog pattern and carries that pattern's similarity, a score in [0, 1]. */
  lemma SemanticMatchHits(inputText: string, catalog: seq<PatternEntry>)
    requires ValidCatalog(catalog)
    ensures forall h :: h in SemanticMatch(inputText, catalog) ==>
      exists i :: (0 <= i < |catalog| && h.pattern == catalog[i].pattern
        && h.score == Similarity(Tokenize(inputText), Tokenize(catalog[i].description))
        && 0.0 <= h.score <= 1.0)
  {
    SemanticMatchRanked(inputText, catalog);
    var all := Scores(Tokenize(inputText), catalog);
    forall h | h in SemanticMatch(inputText, catalog)
      ensures exists i :: (0 <= i < |catalog| && h.pattern == catalog[i].pattern
        && h.score == Similarity(Tokenize(inputText), Tokenize(catalog[i].description))
        && 0.0 <= h.score <= 1.0)
    {
      var i :| 0 <= i < |all| && all[i] == h;
    }
  }

  /**
    Input that shares no token with any description scores 0 against every
    one, so the hits are the first catalog patterns, in catalog order.
   */
  lemma SemanticMatchNoSharedTokens(inputText: string, catalog: seq<PatternEntry>)
    requires ValidCatalog(catalog)
    requires forall i :: 0 <= i < |catalog| ==>
      Tokenize(inputText) * Tokenize(catalog[i].description) == {}
    ensures var top := SemanticMatch(inputText, catalog);
      forall i :: 0 <= i < |top| ==> top[i] == SemanticHit(catalog[i].pattern, 0.0)
  {
    var all := Scores(Tokenize(inputText), catalog);
    forall h | h in all ensures HitScore(h) == 0.0 {
      var i :| 0 <= i < |all| && all[i] == h;
      assert Tokenize(inputText) * Tokenize(catalog[i].description) == {};
    }
    SortDescAllEqual(all, HitScore, 0.0);
    assert SortDesc(all, HitScore) == all;
    assert |catalog| < 2 ==> Take(all, 2) == all;
    assert |catalog| >= 2 ==> Take(all, 2) == all[..2];
  }
}
