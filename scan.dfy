/**
 The single pass of `find_shortest_distance` over the (already lowered) token sequence, as a left
 fold of one step per token, and its relation to the cross-product definition of the shortest
 distance: the minimum of `i - j - 1` over every position `j` of one query and later position `i`
 of the other.

 Throughout, `a` and `b` are the lowered queries and `words` the lowered tokens.
 */
module Scanning {
  import opened Wrappers

  /** Python truthiness of `last_match`, which is `None` or a `str`: falsy when `None` or empty. */
  predicate StringTruthy(m: Option<string>) {
    m.Some? && m.value != ""
  }

  /** Python truthiness of `min_distance`, which is `None` or an `int`: falsy when `None` or `0`. */
  predicate IntTruthy(m: Option<nat>) {
    m.Some? && m.value != 0
  }

  /**
   Which test guards the running-minimum update: `AsWritten` is line 62's `if min_distance`, which
   also treats a minimum of 0 as "none yet"; `Intended` is `if min_distance is not None`.
   */
  datatype Guard = AsWritten | Intended

  /** The three local variables of the loop: `min_distance`, `last_match`, `last_index`. */
  datatype ScanState = ScanState(minDistance: Option<nat>, lastMatch: Option<string>, lastIndex: Option<nat>)

  const Start := ScanState(None, None, None)

  /** `last_match` and `last_index` are set together, and `last_index` is an earlier position. */
  predicate WellFormed(st: ScanState, n: nat) {
    && (st.lastMatch.Some? <==> st.lastIndex.Some?)
    && (st.lastIndex.Some? ==> st.lastIndex.value < n)
  }

  predicate IsMatch(w: string, a: string, b: string) {
    w == a || w == b
  }

  function Min(x: nat, y: nat): (m: nat)
    ensures m <= x && m <= y && (m == x || m == y)
  {
    if x <= y then x else y
  }

  /** The running-minimum update `min(distance, min_distance) if <guard> else distance`. */
  function UpdateMin(m: Option<nat>, distance: nat, guard: Guard): (r: Option<nat>)
    ensures r.Some? && r.value <= distance
    ensures r.value == distance || (m.Some? && r.value == m.value)
    ensures guard == Intended && m.Some? ==> r.value <= m.value
    ensures IntTruthy(m) ==> r.value <= m.value
    ensures guard == AsWritten && m == Some(0) ==> r == Some(distance)
  {
    var keep := match guard
      case AsWritten => IntTruthy(m)
      case Intended => m.Some?;
    if keep then Some(Min(distance, m.value)) else Some(distance)
  }

  /**
   Token `word` completes a qualifying pair with the last match (lines 59-60): it matches a query,
   a match was seen before, and it is the other query, or the two queries are the same word.
   */
  predicate Completes(st: ScanState, a: string, b: string, word: string) {
    IsMatch(word, a, b) && StringTruthy(st.lastMatch) && (word != st.lastMatch.value || a == b)
  }

  /** One iteration of the loop body for token `word` at position `i`. */
  function Step(st: ScanState, a: string, b: string, i: nat, word: string, guard: Guard): (r: ScanState)
    requires WellFormed(st, i)
    ensures WellFormed(r, i + 1)
  {
    if IsMatch(word, a, b) then
      var minDistance :=
        if Completes(st, a, b, word)
        then UpdateMin(st.minDistance, i - st.lastIndex.value - 1, guard)
        else st.minDistance;
      ScanState(minDistance, Some(word), Some(i))
    else
      st
  }

  /** The state after the loop has run over all of `words`. */
  function Scan(a: string, b: string, words: seq<string>, guard: Guard): (st: ScanState)
    ensures WellFormed(st, |words|)
    decreases |words|
  {
    if words == [] then Start
    else
      var n := |words| - 1;
      Step(Scan(a, b, words[..n], guard), a, b, n, words[n], guard)
  }

  // ---------------------------------------------------------------------------------------------
  // The reference definition: pairs of occurrence positions.

  /** Position `j` holds one query and the later position `i` the other (for `a == b`, both hold it). */
  predicate IsPair(words: seq<string>, a: string, b: string, j: int, i: int) {
    && 0 <= j < i < |words|
    && ((words[j] == a && words[i] == b) || (words[j] == b && words[i] == a))
  }

  ghost predicate HasPair(words: seq<string>, a: string, b: string) {
    exists j, i :: IsPair(words, a, b, j, i)
  }

  /** Two occurrences on neighbouring positions: a pair at distance 0. */
  ghost predicate HasAdjacentPair(words: seq<string>, a: string, b: string) {
    exists j, i :: IsPair(words, a, b, j, i) && i == j + 1
  }

  /** `d` is the distance of some pair and no pair is closer. */
  ghost predicate IsShortest(words: seq<string>, a: string, b: string, d: nat) {
    && (exists j, i :: IsPair(words, a, b, j, i) && d == i - j - 1)
    && (forall j, i :: IsPair(words, a, b, j, i) ==> d <= i - j - 1)
  }

  predicate AllNonEmpty(words: seq<string>) {
    forall k :: 0 <= k < |words| ==> words[k] != ""
  }

  function Occurrences(words: seq<string>, w: string): nat {
    if words == [] then 0 else (if words[0] == w then 1 else 0) + Occurrences(words[1..], w)
  }

  // ---------------------------------------------------------------------------------------------
  // Lemmas about the scan.

  lemma PairInPrefix(words: seq<string>, a: string, b: string, n: nat, j: int, i: int)
    requires n <= |words|
    ensures IsPair(words[..n], a, b, j, i) <==> (IsPair(words, a, b, j, i) && i < n)
  {
  }

  /** Scanning one more token is one more step. */
  lemma ScanSnoc(a: string, b: string, words: seq<string>, w: string, guard: Guard)
    ensures Scan(a, b, words + [w], guard) == Step(Scan(a, b, words, guard), a, b, |words|, w, guard)
  {
    assert (words + [w])[..|words|] == words;
  }

  /** Tokens that match neither query leave the state as it was. */
  lemma {:induction false} ScanSkipsNonMatches(a: string, b: string, words: seq<string>, rest: seq<string>, guard: Guard)
    requires forall k :: 0 <= k < |rest| ==> !IsMatch(rest[k], a, b)
    ensures Scan(a, b, words + rest, guard) == Scan(a, b, words, guard)
    decreases |rest|
  {
    if rest == [] {
      assert words + rest == words;
    } else {
      var n := |rest| - 1;
      ScanSkipsNonMatches(a, b, words, rest[..n], guard);
      assert words + rest == (words + rest[..n]) + [rest[n]];
      ScanSnoc(a, b, words + rest[..n], rest[n], guard);
    }
  }

  /** `last_index` is the position of the latest match and `last_match` the token there. */
  lemma {:induction false} ScanTracksLastMatch(a: string, b: string, words: seq<string>, guard: Guard)
    ensures var st := Scan(a, b, words, guard);
      && (st.lastIndex.None? ==> forall k :: 0 <= k < |words| ==> !IsMatch(words[k], a, b))
      && (st.lastIndex.Some? ==>
            && IsMatch(words[st.lastIndex.value], a, b)
            && st.lastMatch == Some(words[st.lastIndex.value])
            && forall k :: st.lastIndex.value < k < |words| ==> !IsMatch(words[k], a, b))
    decreases |words|
  {
    if words != [] {
      var n := |words| - 1;
      ScanTracksLastMatch(a, b, words[..n], guard);
    }
  }

  /** Every minimum the scan reports is the distance of an actual pair. */
  lemma {:induction false} ScanSound(a: string, b: string, words: seq<string>, guard: Guard)
    ensures var st := Scan(a, b, words, guard);
      st.minDistance.Some? ==> exists j, i :: IsPair(words, a, b, j, i) && st.minDistance.value == i - j - 1
    decreases |words|
  {
    if words != [] {
      var n := |words| - 1;
      var prefix := words[..n];
      var before := Scan(a, b, prefix, guard);
      var st := Scan(a, b, words, guard);
      ScanSound(a, b, prefix, guard);
      ScanTracksLastMatch(a, b, prefix, guard);
      if st.minDistance.Some? {
        if st.minDistance == before.minDistance {
          var j, i :| IsPair(prefix, a, b, j, i) && before.minDistance.value == i - j - 1;
          PairInPrefix(words, a, b, n, j, i);
        } else {
          var l := before.lastIndex.value;
          assert IsPair(words, a, b, l, n);
        }
      }
    }
  }

  /** Scanning tokens that are never empty finds a minimum whenever some pair exists. */
  lemma {:induction false} ScanComplete(a: string, b: string, words: seq<string>, guard: Guard)
    requires AllNonEmpty(words)
    requires HasPair(words, a, b)
    ensures Scan(a, b, words, guard).minDistance.Some?
    decreases |words|
  {
    var n := |words| - 1;
    var prefix := words[..n];
    var before := Scan(a, b, prefix, guard);
    ScanTracksLastMatch(a, b, prefix, guard);
    var j, i :| IsPair(words, a, b, j, i);
    if i < n {
      PairInPrefix(words, a, b, n, j, i);
      ScanComplete(a, b, prefix, guard);
    } else {
      var l := before.lastIndex.value;
      assert j <= l by {
        assert IsMatch(prefix[j], a, b);
      }
      if words[n] == prefix[l] && a != b {
        // The pair (j, n) is not the one the scan looks at, but (j, l) already was.
        assert IsPair(words, a, b, j, l);
        PairInPrefix(words, a, b, n, j, l);
        ScanComplete(a, b, prefix, guard);
      }
    }
  }

  /** With the intended guard, the running minimum is never larger than any pair's distance. */
  lemma {:induction false} IntendedScanMinimal(a: string, b: string, words: seq<string>)
    requires AllNonEmpty(words)
    ensures var st := Scan(a, b, words, Intended);
      st.minDistance.Some? ==> forall j, i :: IsPair(words, a, b, j, i) ==> st.minDistance.value <= i - j - 1
    decreases |words|
  {
    if words != [] {
      var n := |words| - 1;
      var prefix := words[..n];
      var before := Scan(a, b, prefix, Intended);
      var st := Scan(a, b, words, Intended);
      IntendedScanMinimal(a, b, prefix);
      ScanTracksLastMatch(a, b, prefix, Intended);
      if st.minDistance.Some? {
        forall j, i | IsPair(words, a, b, j, i)
          ensures st.minDistance.value <= i - j - 1
        {
          PairInPrefix(words, a, b, n, j, i);
          if i < n {
            ScanComplete(a, b, prefix, Intended);
          } else {
            var l := before.lastIndex.value;
            assert j <= l by {
              assert IsMatch(prefix[j], a, b);
            }
            if words[n] == prefix[l] && a != b {
              assert IsPair(words, a, b, j, l);
              PairInPrefix(words, a, b, n, j, l);
              ScanComplete(a, b, prefix, Intended);
            }
          }
        }
      }
    }
  }

  /** With the intended guard the scan computes exactly the cross-product minimum. */
  lemma IntendedScanCorrect(a: string, b: string, words: seq<string>)
    requires AllNonEmpty(words)
    ensures var r := Scan(a, b, words, Intended).minDistance;
      && (r.None? <==> !HasPair(words, a, b))
      && (r.Some? ==> IsShortest(words, a, b, r.value))
  {
    ScanSound(a, b, words, Intended);
    IntendedScanMinimal(a, b, words);
    if HasPair(words, a, b) {
      ScanComplete(a, b, words, Intended);
    }
  }

  /**
   No pair is completed while the running minimum (as written) is 0: the situation in which line
   62's test discards a minimum of 0.
   */
  ghost predicate ZeroNeverOverwritten(a: string, b: string, words: seq<string>) {
    forall n :: 0 <= n < |words| && Completes(Scan(a, b, words[..n], AsWritten), a, b, words[n]) ==>
      Scan(a, b, words[..n], AsWritten).minDistance != Some(0)
  }

  /** Line 62's test gives the same pass as the intended one as long as no minimum of 0 is overwritten. */
  lemma {:induction false} GuardsAgreeUnlessZeroOverwritten(a: string, b: string, words: seq<string>)
    requires ZeroNeverOverwritten(a, b, words)
    ensures Scan(a, b, words, AsWritten) == Scan(a, b, words, Intended)
    decreases |words|
  {
    if words != [] {
      var n := |words| - 1;
      var prefix := words[..n];
      assert ZeroNeverOverwritten(a, b, prefix) by {
        forall m | 0 <= m < n
          ensures prefix[..m] == words[..m] && prefix[m] == words[m]
        {
        }
      }
      GuardsAgreeUnlessZeroOverwritten(a, b, prefix);
    }
  }

  /** Line 62's test only differs from the intended one once the minimum has reached 0. */
  lemma {:induction false} GuardsAgreeWithoutAdjacentPair(a: string, b: string, words: seq<string>)
    requires !HasAdjacentPair(words, a, b)
    ensures Scan(a, b, words, AsWritten) == Scan(a, b, words, Intended)
    decreases |words|
  {
    if words != [] {
      var n := |words| - 1;
      var prefix := words[..n];
      assert !HasAdjacentPair(prefix, a, b) by {
        forall j, i | IsPair(prefix, a, b, j, i) ensures i != j + 1 {
          PairInPrefix(words, a, b, n, j, i);
        }
      }
      GuardsAgreeWithoutAdjacentPair(a, b, prefix);
      // A minimum of 0 would be the distance of an adjacent pair of the prefix.
      ScanSound(a, b, prefix, Intended);
    }
  }

  /**
   Only whole-token matches matter: token sequences that agree on where the queries occur, and on
   which query occurs there, are scanned alike, whatever the other tokens are.
   */
  lemma {:induction false} ScanSeesOnlyMatches(a: string, b: string, words: seq<string>, others: seq<string>, guard: Guard)
    requires |words| == |others|
    requires forall k :: 0 <= k < |words| ==> (IsMatch(words[k], a, b) <==> IsMatch(others[k], a, b))
    requires forall k :: 0 <= k < |words| && IsMatch(words[k], a, b) ==> words[k] == others[k]
    ensures Scan(a, b, words, guard) == Scan(a, b, others, guard)
    decreases |words|
  {
    if words != [] {
      var n := |words| - 1;
      ScanSeesOnlyMatches(a, b, words[..n], others[..n], guard);
    }
  }

  /** The query `a` written as `b` and `b` as `a`; every other token is left as it is. */
  function SwapQuery(w: string, a: string, b: string): string {
    if w == a then b else if w == b then a else w
  }

  function SwapMatch(m: Option<string>, a: string, b: string): Option<string> {
    if m.Some? then Some(SwapQuery(m.value, a, b)) else None
  }

  /** The tokens with every occurrence of either query replaced by the other query. */
  function SwapQueries(words: seq<string>, a: string, b: string): (swapped: seq<string>)
    ensures |swapped| == |words|
    ensures forall k :: 0 <= k < |words| ==> swapped[k] == SwapQuery(words[k], a, b)
    decreases |words|
  {
    if words == [] then []
    else
      var n := |words| - 1;
      SwapQueries(words[..n], a, b) + [SwapQuery(words[n], a, b)]
  }

  function SwapState(st: ScanState, a: string, b: string): ScanState {
    ScanState(st.minDistance, SwapMatch(st.lastMatch, a, b), st.lastIndex)
  }

  /** One step on the swapped token from the swapped state is the swapped step. */
  lemma StepSwapped(st: ScanState, a: string, b: string, i: nat, w: string, guard: Guard)
    requires WellFormed(st, i)
    requires st.lastMatch.Some? ==> st.lastMatch.value != "" && SwapQuery(st.lastMatch.value, a, b) != ""
    ensures Step(SwapState(st, a, b), a, b, i, SwapQuery(w, a, b), guard) == SwapState(Step(st, a, b, i, w, guard), a, b)
  {
  }

  /**
   Which of the two queries occurs where does not matter: exchanging them in the tokens gives the
   same running minimum and last position, with the other query as the last match.
   */
  lemma {:induction false} ScanSwapped(a: string, b: string, words: seq<string>, guard: Guard)
    requires AllNonEmpty(words) && AllNonEmpty(SwapQueries(words, a, b))
    ensures Scan(a, b, SwapQueries(words, a, b), guard) == SwapState(Scan(a, b, words, guard), a, b)
    decreases |words|
  {
    if words != [] {
      var n := |words| - 1;
      var swapped := SwapQueries(words, a, b);
      assert swapped[..n] == SwapQueries(words[..n], a, b);
      assert AllNonEmpty(SwapQueries(words[..n], a, b)) by {
        forall k | 0 <= k < n ensures SwapQueries(words[..n], a, b)[k] == swapped[k] { }
      }
      ScanSwapped(a, b, words[..n], guard);
      // The last match is a token, so it and its swap are both non-empty.
      ScanTracksLastMatch(a, b, words[..n], guard);
      StepSwapped(Scan(a, b, words[..n], guard), a, b, n, words[n], guard);
    }
  }

  /** The scan treats the two queries alike. */
  lemma {:induction false} ScanSymmetric(a: string, b: string, words: seq<string>, guard: Guard)
    ensures Scan(a, b, words, guard) == Scan(b, a, words, guard)
    decreases |words|
  {
    if words != [] {
      ScanSymmetric(a, b, words[..|words| - 1], guard);
    }
  }

  /** A pair exists exactly when both queries occur, at two different positions if they are equal. */
  lemma PairExistsIff(words: seq<string>, a: string, b: string)
    ensures HasPair(words, a, b) <==>
      if a == b then Occurrences(words, a) >= 2 else a in words && b in words
  {
    if a == b {
      TwoOccurrences(words, a);
    } else if a in words && b in words {
      var ja :| 0 <= ja < |words| && words[ja] == a;
      var jb :| 0 <= jb < |words| && words[jb] == b;
      if ja < jb {
        assert IsPair(words, a, b, ja, jb);
      } else {
        assert IsPair(words, a, b, jb, ja);
      }
    }
  }

  lemma {:induction false} OneOccurrence(words: seq<string>, w: string)
    ensures Occurrences(words, w) >= 1 <==> w in words
  {
    if words != [] {
      OneOccurrence(words[1..], w);
      assert words == [words[0]] + words[1..];
    }
  }

  lemma {:induction false} TwoOccurrences(words: seq<string>, w: string)
    ensures Occurrences(words, w) >= 2 <==> HasPair(words, w, w)
  {
    if words != [] {
      var rest := words[1..];
      TwoOccurrences(rest, w);
      OneOccurrence(rest, w);
      if Occurrences(words, w) >= 2 {
        if words[0] == w {
          var k :| 0 <= k < |rest| && rest[k] == w;
          assert IsPair(words, w, w, 0, k + 1);
        } else {
          var j, i :| IsPair(rest, w, w, j, i);
          assert IsPair(words, w, w, j + 1, i + 1);
        }
      }
      if HasPair(words, w, w) {
        var j, i :| IsPair(words, w, w, j, i);
        if j == 0 {
          assert rest[i - 1] == w;
        } else {
          assert IsPair(rest, w, w, j - 1, i - 1);
        }
      }
    }
  }
}
