# find_shortest_distance in Dafny

A model of `find_shortest_distance(a, b, s)` from `find_shortest_distance.py`, with proofs about it.
The function returns the number of words between the nearest occurrences of the words `a` and `b`
in the text `s`, or `None` when there is no such pair. It works in three parts:

- It lowercases the two queries and the text, and splits the text on runs of whitespace (lines 56 and 58).
- It makes one pass over the tokens. It remembers the last token that matched a query, and its
  position (`last_match`, `last_index`).
- Each time a match completes a qualifying pair, it updates a running minimum `min_distance`. A
  pair qualifies when the match is the other query, or when the two queries are the same word
  (lines 59-64).

The model has four modules:

- `Wrappers` (`wrappers.dfy`): `Option`, standing for a value or Python's `None`.
- `Text` (`text.dfy`): `s.lower().split()`. `Lower` lowers text character by character. `Split` is
  a recursive function returning the maximal whitespace-free pieces of a string. The lemmas say
  what the tokens are and how runs of whitespace separate them.
- `Scanning` (`scan.dfy`): the pass over the tokens.
  - `Step` is one iteration of the loop body, over `ScanState`, the loop's three local variables.
  - `Scan` is the left fold of `Step` over the tokens.
  - The reference definition is `IsPair`, `HasPair`, `IsShortest`: the distance `i - j - 1` over
    every position `j` of one query and later position `i` of the other.
  - The lemmas relate `Scan` to that reference definition.
  - Python truthiness is written out: `StringTruthy` for `if last_match`, `IntTruthy` for `if min_distance`.
  - The update test of line 62 is a parameter, `Guard`. `AsWritten` is the code's `if min_distance`.
    `Intended` is `if min_distance is not None` (see Findings).
- `FindShortestDistance` (`find_shortest_distance.dfy`): the function itself.
  - The method `FindShortestDistance` is the loop of lines 56-65, over three local variables. Its
    loop invariant ties those variables to `Scan` of the tokens seen so far.
  - `ShortestDistance` is the function the method is proved against.
  - The lemmas state what the function promises, in terms of its inputs.
- `Doctests` (`doctests.dfy`): the examples of the doc-comment, proved about `ShortestDistance`.
  - Each example is proved in three steps: the tokens of its text, the scan over those tokens, and
    a lemma that takes the text as a parameter and uses only its tokens.
  - The two sentence examples (lines 8 and 12) write their text as six string literals joined by
    `" "`. That is the same string, in pieces short enough for the verifier to tokenise.

The model follows the code, not the doc-comment, where the two disagree.
- The doc-comment (line 5, lines 47-49) promises the shortest distance. Line 62 does not deliver it
  once the running minimum has reached 0.
- `ShortestDistance` reproduces line 62 as written. The promised minimum is proved under a
  hypothesis that excludes this case, and for the corrected test.

## Model

| member | source | states |
|---|---|---|
| Text.IsWhitespace | find_shortest_distance.py:58 | the separators of the argument-less `str.split()`: the characters `str.isspace()` accepts, written out as a fixed set |
| Text.LowerChar | find_shortest_distance.py:56 | an upper-case ASCII letter becomes its lower-case letter; every other character is unchanged; lowering neither creates nor removes whitespace |
| Text.Lower | find_shortest_distance.py:58 | `str.lower()` keeps the length and lowers every character in place |
| Text.LowerIdempotent | find_shortest_distance.py:56 | lowering already lowered text changes nothing |
| Text.LowerAppend | find_shortest_distance.py:58 | lowering a concatenation lowers each part |
| Text.WordLength | find_shortest_distance.py:58 | the first word of a text ends at the first whitespace character, or at the end of the text |
| Text.Split | find_shortest_distance.py:58 | every token `str.split()` returns is non-empty and has no whitespace |
| Text.SplitKeepsText | find_shortest_distance.py:58 | the tokens, in order, hold exactly the non-whitespace characters of the text, in text order |
| Text.SplitAllWhitespace | find_shortest_distance.py:58 | empty or all-whitespace text has no tokens |
| Text.SplitToken | find_shortest_distance.py:58 | a non-empty whitespace-free text is one token |
| Text.SplitDropsLeadingWhitespace | find_shortest_distance.py:58 | leading whitespace produces no token |
| Text.SplitAtSeparator | find_shortest_distance.py:58 | a whitespace character is a token boundary: the text on either side splits independently |
| Text.SplitAtWhitespaceRun | find_shortest_distance.py:35-37 | any non-empty run of mixed whitespace is one boundary, the same as a single space |
| Text.SplitJoined | find_shortest_distance.py:58 | splitting tokens joined by whitespace runs gives back those tokens |
| Text.LowerEach | find_shortest_distance.py:58 | the lowered tokens, one for one |
| Text.LowerJoined | find_shortest_distance.py:58 | lowering joined text is joining the lowered pieces |
| Text.SplitLowerJoined | find_shortest_distance.py:58 | the tokens of lowered text made of tokens and whitespace runs are the lowered tokens |
| Scanning.StringTruthy | find_shortest_distance.py:60 | the truth value of `last_match`: false for `None` and for the empty string |
| Scanning.IntTruthy | find_shortest_distance.py:62 | the truth value of `min_distance`: false for `None` and for 0 |
| Scanning.IsMatch | find_shortest_distance.py:59 | `word in (a, b)`: the token equals one of the two lowered queries |
| Scanning.Min | find_shortest_distance.py:62 | `min` is at most both arguments and is one of them |
| Scanning.UpdateMin | find_shortest_distance.py:62 | the new minimum is never above the new distance, and is the distance or the old minimum; whenever the test keeps the old minimum (a non-zero minimum as written, any minimum with the corrected test) it is never above that minimum either, so it is `min(distance, min_distance)`; as written, an old minimum of 0 is replaced by the distance |
| Scanning.Completes | find_shortest_distance.py:59-60 | a matching token completes a pair when a match was seen before (`last_match` is truthy) and it is the other query, or the two queries are equal |
| Scanning.Step | find_shortest_distance.py:59-64 | one loop iteration keeps `last_match` and `last_index` set together, with `last_index` before the current position |
| Scanning.Scan | find_shortest_distance.py:57-64 | the state after the loop: `last_match` and `last_index` set together, `last_index` inside the tokens |
| Scanning.PairInPrefix | find_shortest_distance.py:58 | a pair of positions in a prefix of the tokens is a pair of the whole whose later position is in the prefix |
| Scanning.ScanSnoc | find_shortest_distance.py:58-64 | the pass over one more token is one more loop iteration |
| Scanning.ScanSkipsNonMatches | find_shortest_distance.py:59 | tokens that match neither query leave all three variables unchanged |
| Scanning.ScanTracksLastMatch | find_shortest_distance.py:63-64 | `last_index` is the position of the latest match and `last_match` the token there; `None` means no token matched |
| Scanning.ScanSound | find_shortest_distance.py:59-62 | every minimum the pass reports is `i - j - 1` for a pair of positions holding the two queries |
| Scanning.ScanComplete | find_shortest_distance.py:60-62 | when some pair exists, the pass reports a minimum |
| Scanning.IntendedScanMinimal | find_shortest_distance.py:62 | with the corrected test, the reported minimum is at most the distance of every pair |
| Scanning.IntendedScanCorrect | find_shortest_distance.py:57-65 | with the corrected test, the result is `None` exactly when no pair exists, and otherwise the shortest distance over all pairs |
| Scanning.GuardsAgreeUnlessZeroOverwritten | find_shortest_distance.py:62 | the test as written and the corrected test give the same pass unless a pair is completed while the running minimum is 0 |
| Scanning.GuardsAgreeWithoutAdjacentPair | find_shortest_distance.py:62 | the two tests give the same pass when no two neighbouring tokens form a pair |
| Scanning.ScanSeesOnlyMatches | find_shortest_distance.py:59 | token sequences that agree on where, and which, queries occur are scanned alike |
| Scanning.ScanSymmetric | find_shortest_distance.py:59-60 | swapping the two queries does not change the pass |
| Scanning.StepSwapped | find_shortest_distance.py:59-64 | one iteration on a token with the two queries exchanged, from the state with its last match exchanged, is the original iteration with its last match exchanged |
| Scanning.ScanSwapped | find_shortest_distance.py:11-13 | exchanging every occurrence of one query with the other in the tokens leaves the running minimum and the last position unchanged and exchanges the last match |
| Scanning.PairExistsIff | find_shortest_distance.py:23-27 | a pair exists exactly when both queries occur, or, when they are equal, when it occurs at least twice |
| Scanning.OneOccurrence | find_shortest_distance.py:59 | a word occurs at least once exactly when it is among the tokens |
| Scanning.TwoOccurrences | find_shortest_distance.py:23-27 | a word occurs at least twice exactly when it pairs with itself |
| FindShortestDistance.Tokens | find_shortest_distance.py:58 | the tokens of `s.lower().split()` are never empty |
| FindShortestDistance.ShortestDistance | find_shortest_distance.py:56-65 | the value the function returns, line 62 as written: the running minimum after the pass over the lowered tokens for the lowered queries; the lemmas below state its properties |
| FindShortestDistance.IntendedShortestDistance | find_shortest_distance.py:56-65 | the same pass with the test of line 62 corrected to `min_distance is not None` |
| FindShortestDistance.FindShortestDistance | find_shortest_distance.py:56-65 | the loop returns `ShortestDistance(a, b, s)`; `None` exactly when no pair of positions holds the lowered queries; otherwise `i - j - 1` for such a pair |
| FindShortestDistance.WhitespaceTextNotFound | find_shortest_distance.py:15-17 | empty or all-whitespace text gives `None`, whatever the queries |
| FindShortestDistance.NotFoundIff | find_shortest_distance.py:57-65 | `None` exactly when one lowered query is not a token (different queries), or the query is a token fewer than twice (equal queries) |
| FindShortestDistance.FoundIsPairDistance | find_shortest_distance.py:59-62 | a result is the number of tokens between an occurrence of one query and a later occurrence of the other |
| FindShortestDistance.Symmetric | find_shortest_distance.py:59-60 | exchanging the arguments `a` and `b` does not change the result |
| FindShortestDistance.OrderInTextIrrelevant | find_shortest_distance.py:11-13 | which of the two words appears first in the text does not matter: a text whose tokens are those of `s` with the two lowered queries exchanged gives the same result |
| FindShortestDistance.CaseInsensitive | find_shortest_distance.py:19-21 | the result depends only on the lowered queries and the lowered text |
| FindShortestDistance.WholeTokensOnly | find_shortest_distance.py:59 | texts whose tokens agree on where, and which, lowered queries occur give the same result; tokens that only contain a query, or carry punctuation, do not count |
| FindShortestDistance.ShortestUnlessZeroOverwritten | find_shortest_distance.py:62 | unless a pair is completed while the running minimum is 0, the result is the shortest distance over all pairs |
| FindShortestDistance.ShortestWithoutAdjacentPair | find_shortest_distance.py:62 | when no two neighbouring tokens form a pair, the result is the shortest distance over all pairs |
| FindShortestDistance.IntendedIsShortest | find_shortest_distance.py:47-49 | with the corrected test the result is `None` exactly when no pair exists, and otherwise the shortest distance |
| FindShortestDistance.AsWrittenNeverBelowShortest | find_shortest_distance.py:62 | as written, a result exists exactly when the shortest distance does, and is never below it |
| Doctests.ScanNearestFirst | find_shortest_distance.py:8-9 | for tokens `p x q y r y t` where only `x` and `y` are queries, and different ones, the result is the length of `q`: the second `y` does not pair with the first |
| Doctests.SentenceExample | find_shortest_distance.py:8-9 | `('motivation', 'development', 'We do value … DevOp.')` gives 2 |
| Doctests.SwappedSentenceExample | find_shortest_distance.py:11-13 | the same text with the two words swapped also gives 2 |
| Doctests.EmptyTextExample | find_shortest_distance.py:15-17 | empty text gives `None` |
| Doctests.CaseInsensitiveExample | find_shortest_distance.py:19-21 | `('Foo', 'bar', 'foo Bar')` gives 0 |
| Doctests.SameWordOnceExample | find_shortest_distance.py:23-25 | `('foo', 'foo', 'foo')` gives `None` |
| Doctests.SameWordTwiceExample | find_shortest_distance.py:26-27 | `('foo', 'foo', 'foo foo')` gives 0 |
| Doctests.AttachedPunctuationExample | find_shortest_distance.py:29-31 | `('foo', 'bar', 'foo. between bar')` gives `None` |
| Doctests.DetachedPunctuationExample | find_shortest_distance.py:32-33 | `('foo', 'bar', 'foo . between bar')` gives 2 |
| Doctests.MixedWhitespaceExample | find_shortest_distance.py:35-37 | newline, tab and double space separate words: the result is 2 |
| Doctests.EmojiExample | find_shortest_distance.py:39-41 | a token starting with U+1F604 matches like any other: the result is 1 |
| Doctests.EmbeddedWordExample | find_shortest_distance.py:43-45 | `('foo', 'bar', 'foobaz bar')` gives `None` |
| Doctests.LaterPairNearerExample | find_shortest_distance.py:47-49 | `('foo', 'bar', 'foo word bar foo')` gives 0 |
| Doctests.DefectFromTokens | find_shortest_distance.py:62 | for tokens `foo bar x foo`: the result as written is 1; with the corrected test it is 0, the shortest distance; the hypothesis of `ShortestUnlessZeroOverwritten` fails |
| Doctests.DefectExample | find_shortest_distance.py:62 | `('foo', 'bar', 'foo bar x foo')` gives 1 as written and 0 with the corrected test |

## Left out

- The command-line block (lines 67-73): it reads arguments and standard input, prints and exits. This is I/O only.
- The `kafka.txt` example (lines 51-54): it reads a file that is not part of this model.
- Text.Lower: maps the ASCII letters only. Python's `str.lower()` also lowers other Unicode letters, and can change a string's length. That library behaviour is not part of this model.
- Text.IsWhitespace: the characters `str.split()` splits on are taken to be the ones CPython's `str.isspace()` accepts, written out as a fixed set rather than derived from the Unicode database.
- Doctests.SentenceExample and Doctests.SwappedSentenceExample: the text is written as six string literals joined by spaces. The value is the same; the single literal is too long for the verifier to tokenise directly.
- The queries and text are modelled as strings only. Nothing models calling the function with values of other types.

## Findings

| source | as written | input that shows it | evidently intended | confidence | as-written member | corrected member |
|---|---|---|---|---|---|---|
| find_shortest_distance.py:62 | the update tests `if min_distance`, so a running minimum of 0 counts as "no minimum yet", and the next qualifying pair replaces it | `find_shortest_distance('foo', 'bar', 'foo bar x foo')` returns 1 | test `min_distance is not None`, giving 0, the shortest distance the doc-comment promises (line 5, lines 47-49) | not executed | Doctests.DefectExample | FindShortestDistance.IntendedIsShortest |

In the as-written member, the pair `foo bar` sets the minimum to 0. The later pair `bar x foo`
then replaces it with 1.

The corrected member `IntendedShortestDistance` uses the same pass with the corrected test, and is
proved to return the shortest distance for every input. The main model keeps the code's behaviour:
`ShortestDistance` and the method use the test as written.
