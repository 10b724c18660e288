/**
 `find_shortest_distance(a, b, s)`: the number of words between the nearest occurrences of the
 words `a` and `b` in the text `s`, or `None`.
 */
module FindShortestDistance {
  import opened Wrappers
  import opened Text
  import opened Scanning

  /** The tokens the loop walks: `s.lower().split()`. Every one of them is non-empty. */
  function Tokens(s: string): (words: seq<string>)
    ensures AllNonEmpty(words)
  {
    Split(Lower(s))
  }

  /** The value `find_shortest_distance(a, b, s)` returns, with line 62's test as written. */
  function ShortestDistance(a: string, b: string, s: string): Option<nat> {
    Scan(Lower(a), Lower(b), Tokens(s), AsWritten).minDistance
  }

  /** The same pass with line 62's test corrected to `if min_distance is not None`. */
  function IntendedShortestDistance(a: string, b: string, s: string): Option<nat> {
    Scan(Lower(a), Lower(b), Tokens(s), Intended).minDistance
  }

  /** The loop of lines 56-65, over three local variables. */
  method FindShortestDistance(a: string, b: string, s: string) returns (minDistance: Option<nat>)
    ensures minDistance == ShortestDistance(a, b, s)
    ensures minDistance.None? <==> !HasPair(Tokens(s), Lower(a), Lower(b))
    ensures minDistance.Some? ==>
      exists j, i :: IsPair(Tokens(s), Lower(a), Lower(b), j, i) && minDistance.value == i - j - 1
  {
    var qa, qb := Lower(a), Lower(b);
    var words := Tokens(s);
    minDistance := None;
    var lastMatch: Option<string> := None;
    var lastIndex: Option<nat> := None;
    for i := 0 to |words|
      invariant ScanState(minDistance, lastMatch, lastIndex) == Scan(qa, qb, words[..i], AsWritten)
    {
      assert words[..i + 1][..i] == words[..i];
      var word := words[i];
      if word == qa || word == qb {
        if StringTruthy(lastMatch) && (word != lastMatch.value || qa == qb) {
          var distance := i - lastIndex.value - 1;
          minDistance := if IntTruthy(minDistance) then Some(Min(distance, minDistance.value)) else Some(distance);
        }
        lastIndex := Some(i);
        lastMatch := Some(word);
      }
    }
    assert words[..|words|] == words;
    ScanSound(qa, qb, words, AsWritten);
    if HasPair(words, qa, qb) {
      ScanComplete(qa, qb, words, AsWritten);
    }
  }

  // ---------------------------------------------------------------------------------------------
  // What the function promises.

  /** Empty or all-whitespace text gives `None`. */
  lemma WhitespaceTextNotFound(a: string, b: string, s: string)
    requires AllWhitespace(s)
    ensures ShortestDistance(a, b, s) == None
  {
    SplitAllWhitespace(Lower(s));
  }

  /**
   The result is `None` exactly when no pair exists: for different queries, when one of them is not
   a token of the text; for equal queries, when it is a token fewer than twice.
   */
  lemma NotFoundIff(a: string, b: string, s: string)
    ensures ShortestDistance(a, b, s).None? <==>
      if Lower(a) == Lower(b) then Occurrences(Tokens(s), Lower(a)) < 2
      else Lower(a) !in Tokens(s) || Lower(b) !in Tokens(s)
  {
    var words := Tokens(s);
    ScanSound(Lower(a), Lower(b), words, AsWritten);
    if HasPair(words, Lower(a), Lower(b)) {
      ScanComplete(Lower(a), Lower(b), words, AsWritten);
    }
    PairExistsIff(words, Lower(a), Lower(b));
  }

  /** A result is the number of tokens between an occurrence of one query and a later one of the other. */
  lemma FoundIsPairDistance(a: string, b: string, s: string)
    ensures ShortestDistance(a, b, s).Some? ==>
      exists j, i :: IsPair(Tokens(s), Lower(a), Lower(b), j, i) && ShortestDistance(a, b, s).value == i - j - 1
  {
    ScanSound(Lower(a), Lower(b), Tokens(s), AsWritten);
  }

  /** It does not matter which of the two queries comes first. */
  lemma Symmetric(a: string, b: string, s: string)
    ensures ShortestDistance(a, b, s) == ShortestDistance(b, a, s)
  {
    ScanSymmetric(Lower(a), Lower(b), Tokens(s), AsWritten);
  }

  /**
   Nor does it matter which of the two queries appears first in the text: a text whose tokens are
   those of `s` with the two lowered queries exchanged gives the same result.
   */
  lemma OrderInTextIrrelevant(a: string, b: string, s: string, t: string)
    requires Tokens(t) == SwapQueries(Tokens(s), Lower(a), Lower(b))
    ensures ShortestDistance(a, b, s) == ShortestDistance(a, b, t)
  {
    ScanSwapped(Lower(a), Lower(b), Tokens(s), AsWritten);
  }

  /** Search is case-insensitive: only the lowered queries and the lowered text matter. */
  lemma CaseInsensitive(a: string, b: string, s: string)
    ensures ShortestDistance(a, b, s) == ShortestDistance(Lower(a), Lower(b), Lower(s))
  {
    LowerIdempotent(a);
    LowerIdempotent(b);
    LowerIdempotent(s);
  }

  /**
   Only whole tokens equal to a lowered query matter: texts whose tokens agree on where the queries
   occur, and which query occurs there, give the same result, whatever their other tokens are.
   */
  lemma WholeTokensOnly(a: string, b: string, s: string, t: string)
    requires |Tokens(s)| == |Tokens(t)|
    requires forall k :: 0 <= k < |Tokens(s)| ==>
      (IsMatch(Tokens(s)[k], Lower(a), Lower(b)) <==> IsMatch(Tokens(t)[k], Lower(a), Lower(b)))
    requires forall k :: 0 <= k < |Tokens(s)| && IsMatch(Tokens(s)[k], Lower(a), Lower(b)) ==> Tokens(s)[k] == Tokens(t)[k]
    ensures ShortestDistance(a, b, s) == ShortestDistance(a, b, t)
  {
    ScanSeesOnlyMatches(Lower(a), Lower(b), Tokens(s), Tokens(t), AsWritten);
  }

  /**
   As long as no pair is completed while the running minimum is 0, the result is the shortest
   distance.
   */
  lemma ShortestUnlessZeroOverwritten(a: string, b: string, s: string)
    requires ZeroNeverOverwritten(Lower(a), Lower(b), Tokens(s))
    ensures ShortestDistance(a, b, s) == IntendedShortestDistance(a, b, s)
    ensures ShortestDistance(a, b, s).Some? ==> IsShortest(Tokens(s), Lower(a), Lower(b), ShortestDistance(a, b, s).value)
  {
    GuardsAgreeUnlessZeroOverwritten(Lower(a), Lower(b), Tokens(s));
    IntendedScanCorrect(Lower(a), Lower(b), Tokens(s));
  }

  /** In particular, when no two neighbouring tokens form a pair, the result is the shortest distance. */
  lemma ShortestWithoutAdjacentPair(a: string, b: string, s: string)
    requires !HasAdjacentPair(Tokens(s), Lower(a), Lower(b))
    ensures ShortestDistance(a, b, s) == IntendedShortestDistance(a, b, s)
    ensures ShortestDistance(a, b, s).Some? ==> IsShortest(Tokens(s), Lower(a), Lower(b), ShortestDistance(a, b, s).value)
  {
    GuardsAgreeWithoutAdjacentPair(Lower(a), Lower(b), Tokens(s));
    IntendedScanCorrect(Lower(a), Lower(b), Tokens(s));
  }

  /** With the corrected test the result is always the shortest distance, or `None` when there is no pair. */
  lemma IntendedIsShortest(a: string, b: string, s: string)
    ensures IntendedShortestDistance(a, b, s).None? <==> !HasPair(Tokens(s), Lower(a), Lower(b))
    ensures IntendedShortestDistance(a, b, s).Some? ==>
      IsShortest(Tokens(s), Lower(a), Lower(b), IntendedShortestDistance(a, b, s).value)
  {
    IntendedScanCorrect(Lower(a), Lower(b), Tokens(s));
  }

  /** As written, the result is found exactly when the shortest distance exists, and is never below it. */
  lemma AsWrittenNeverBelowShortest(a: string, b: string, s: string)
    ensures ShortestDistance(a, b, s).Some? <==> IntendedShortestDistance(a, b, s).Some?
    ensures ShortestDistance(a, b, s).Some? ==>
      ShortestDistance(a, b, s).value >= IntendedShortestDistance(a, b, s).value
  {
    var qa, qb, words := Lower(a), Lower(b), Tokens(s);
    ScanSound(qa, qb, words, AsWritten);
    ScanSound(qa, qb, words, Intended);
    IntendedScanMinimal(qa, qb, words);
    if HasPair(words, qa, qb) {
      ScanComplete(qa, qb, words, AsWritten);
      ScanComplete(qa, qb, words, Intended);
    }
  }
}
