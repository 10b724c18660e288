/**
 The examples of the doc-comment of `find_shortest_distance` (find_shortest_distance.py:7-49), as
 lemmas about the model.

 Each example is proved in steps small enough for the verifier: the tokens of the text, the scan
 over those tokens, and a lemma that takes the text as a parameter and knows only its tokens, so
 that the verifier never evaluates the tokenisation of a literal inside a larger proof.
 */
module Doctests {
  import opened Wrappers
  import opened Text
  import opened Scanning
  import opened FindShortestDistance

  /**
   The tokens of a text whose lower case `lowered` is made of tokens joined by whitespace runs are
   those tokens.
   */
  lemma TokensOfText(s: string, lowered: string, words: seq<string>, separators: seq<string>)
    requires |lowered| == |s| && forall k :: 0 <= k < |s| ==> LowerChar(s[k]) == lowered[k]
    requires forall k :: 0 <= k < |words| ==> IsToken(words[k])
    requires |separators| + 1 == |words|
    requires forall k :: 0 <= k < |separators| ==> IsSeparator(separators[k])
    requires lowered == Joined(words, separators)
    ensures Tokens(s) == words
  {
    assert Lower(s) == lowered;
    SplitJoined(words, separators);
  }

  /** A space between two texts separates their tokens. */
  lemma TokensAround(x: string, y: string)
    ensures Tokens(x + " " + y) == Tokens(x) + Tokens(y)
  {
    LowerAppend(x + " ", y);
    LowerAppend(x, " ");
    assert Lower(" ") == [' '];
    SplitAtSeparator(Lower(x), ' ', Lower(y));
  }

  // ---------------------------------------------------------------------------------------------
  // Tokens of the example texts.

  lemma TokensFooUpperBar()
    ensures Tokens("foo Bar") == ["foo", "bar"]
  {
    TokensOfText("foo Bar", "foo bar", ["foo", "bar"], [" "]);
  }

  lemma TokensFoo()
    ensures Tokens("foo") == ["foo"]
  {
    TokensOfText("foo", "foo", ["foo"], []);
  }

  lemma TokensFooFoo()
    ensures Tokens("foo foo") == ["foo", "foo"]
  {
    TokensOfText("foo foo", "foo foo", ["foo", "foo"], [" "]);
  }

  lemma TokensAttachedPunctuation()
    ensures Tokens("foo. between bar") == ["foo.", "between", "bar"]
  {
    TokensOfText("foo. between bar", "foo. between bar", ["foo.", "between", "bar"], [" ", " "]);
  }

  lemma TokensDetachedPunctuation()
    ensures Tokens("foo . between bar") == ["foo", ".", "between", "bar"]
  {
    TokensOfText("foo . between bar", "foo . between bar", ["foo", ".", "between", "bar"], [" ", " ", " "]);
  }

  lemma TokensMixedWhitespace()
    ensures Tokens("foo\nbetween\tbetween  bar") == ["foo", "between", "between", "bar"]
  {
    TokensOfText("foo\nbetween\tbetween  bar", "foo\nbetween\tbetween  bar", ["foo", "between", "between", "bar"], ["\n", "\t", "  "]);
  }

  lemma TokensEmoji()
    ensures Tokens("foo bar \U{1F604}isAnEmoji") == ["foo", "bar", "\U{1F604}isanemoji"]
  {
    TokensOfText("foo bar \U{1F604}isAnEmoji", "foo bar \U{1F604}isanemoji",
                 ["foo", "bar", "\U{1F604}isanemoji"], [" ", " "]);
  }

  lemma TokensEmbeddedWord()
    ensures Tokens("foobaz bar") == ["foobaz", "bar"]
  {
    TokensOfText("foobaz bar", "foobaz bar", ["foobaz", "bar"], [" "]);
  }

  lemma TokensLaterPairNearer()
    ensures Tokens("foo word bar foo") == ["foo", "word", "bar", "foo"]
  {
    TokensOfText("foo word bar foo", "foo word bar foo", ["foo", "word", "bar", "foo"], [" ", " ", " "]);
  }

  lemma TokensDefect()
    ensures Tokens("foo bar x foo") == ["foo", "bar", "x", "foo"]
  {
    TokensOfText("foo bar x foo", "foo bar x foo", ["foo", "bar", "x", "foo"], [" ", " ", " "]);
  }

  // The two sentences of lines 8 and 12 are written as six pieces joined by spaces; each piece is
  // short enough for its tokens to be computed, and each lemma adds the tokens of one piece to those
  // of the text before it.

  lemma TokensWeDo()
    ensures Tokens("We do") == ["we", "do"]
  {
    TokensOfText("We do", "we do", ["we", "do"], [" "]);
  }

  lemma TokensThenValueAndReward(front: string)
    ensures Tokens(front + " " + "value and reward") == Tokens(front) + ["value", "and", "reward"]
  {
    TokensOfText("value and reward", "value and reward", ["value", "and", "reward"], [" ", " "]);
    TokensAround(front, "value and reward");
  }

  lemma TokensThenMotivationInOur(front: string)
    ensures Tokens(front + " " + "motivation in our") == Tokens(front) + (["motivation"] + ["in", "our"])
  {
    TokensOfText("motivation in our", "motivation in our", ["motivation", "in", "our"], [" ", " "]);
    TokensAround(front, "motivation in our");
  }

  lemma TokensThenDevelopmentTeam(front: string)
    ensures Tokens(front + " " + "development team.") == Tokens(front) + (["development"] + ["team."])
  {
    TokensOfText("development team.", "development team.", ["development", "team."], [" "]);
    TokensAround(front, "development team.");
  }

  lemma TokensThenDevelopmentIsAKey(front: string)
    ensures Tokens(front + " " + "Development is a key") == Tokens(front) + (["development"] + ["is", "a", "key"])
  {
    TokensOfText("Development is a key", "development is a key", ["development", "is", "a", "key"], [" ", " ", " "]);
    TokensAround(front, "Development is a key");
  }

  lemma TokensThenDevelopmentInOur(front: string)
    ensures Tokens(front + " " + "development in our") == Tokens(front) + (["development"] + ["in", "our"])
  {
    TokensOfText("development in our", "development in our", ["development", "in", "our"], [" ", " "]);
    TokensAround(front, "development in our");
  }

  lemma TokensThenMotivationTeam(front: string)
    ensures Tokens(front + " " + "motivation team.") == Tokens(front) + (["motivation"] + ["team."])
  {
    TokensOfText("motivation team.", "motivation team.", ["motivation", "team."], [" "]);
    TokensAround(front, "motivation team.");
  }

  lemma TokensThenMotivationIsAKey(front: string)
    ensures Tokens(front + " " + "Motivation is a key") == Tokens(front) + (["motivation"] + ["is", "a", "key"])
  {
    TokensOfText("Motivation is a key", "motivation is a key", ["motivation", "is", "a", "key"], [" ", " ", " "]);
    TokensAround(front, "Motivation is a key");
  }

  lemma TokensThenSkillForADevOp(front: string)
    ensures Tokens(front + " " + "skill for a DevOp.") == Tokens(front) + (["skill", "for", "a", "devop."])
  {
    TokensOfText("skill for a DevOp.", "skill for a devop.", ["skill", "for", "a", "devop."], [" ", " ", " "]);
    TokensAround(front, "skill for a DevOp.");
  }

  // ---------------------------------------------------------------------------------------------
  // The scan over those tokens.

  lemma ScanTwoWords(a: string, b: string)
    requires a != "" && b != ""
    ensures Scan(a, b, [a, b], AsWritten).minDistance == Some(0)
  {
    var w := [a, b];
    assert w[..1] == [a];
    assert w[..1][..0] == [];
  }

  lemma ScanOneWord(a: string)
    requires a != ""
    ensures Scan(a, a, [a], AsWritten).minDistance == None
  {
    assert [a][..0] == [];
  }

  /** When one query is not a token there is no pair, so nothing is found. */
  lemma NoQuery(a: string, b: string, words: seq<string>)
    requires a !in words
    ensures Scan(a, b, words, AsWritten).minDistance == None
  {
    ScanSound(a, b, words, AsWritten);
  }

  lemma ScanGapOfTwo(a: string, b: string, x: string, y: string)
    requires a != "" && b != "" && a != b
    requires !IsMatch(x, a, b) && !IsMatch(y, a, b)
    ensures Scan(a, b, [a, x, y, b], AsWritten).minDistance == Some(2)
  {
    var w := [a, x, y, b];
    assert w[..3] == [a, x, y];
    assert w[..3][..2] == [a, x];
    assert w[..3][..2][..1] == [a];
    assert w[..3][..2][..1][..0] == [];
    assert Scan(a, b, [a], AsWritten) == ScanState(None, Some(a), Some(0));
    assert Scan(a, b, [a, x], AsWritten) == ScanState(None, Some(a), Some(0));
    assert Scan(a, b, [a, x, y], AsWritten) == ScanState(None, Some(a), Some(0));
  }

  lemma ScanEmoji()
    ensures Scan("\U{1F604}isanemoji", "foo", ["foo", "bar", "\U{1F604}isanemoji"], AsWritten).minDistance == Some(1)
  {
    var w := ["foo", "bar", "\U{1F604}isanemoji"];
    assert w[..2] == ["foo", "bar"];
    assert w[..2][..1] == ["foo"];
    assert w[..2][..1][..0] == [];
  }

  lemma ScanLaterPairNearer()
    ensures Scan("foo", "bar", ["foo", "word", "bar", "foo"], AsWritten).minDistance == Some(0)
  {
    var w := ["foo", "word", "bar", "foo"];
    assert w[..3] == ["foo", "word", "bar"];
    assert w[..3][..2] == ["foo", "word"];
    assert w[..3][..2][..1] == ["foo"];
    assert w[..3][..2][..1][..0] == [];
    assert Scan("foo", "bar", ["foo", "word", "bar"], AsWritten) == ScanState(Some(1), Some("bar"), Some(2));
  }

  lemma ScanDefect(guard: Guard)
    ensures Scan("foo", "bar", ["foo", "bar", "x", "foo"], guard).minDistance ==
      if guard == AsWritten then Some(1) else Some(0)
  {
    var w := ["foo", "bar", "x", "foo"];
    assert w[..3] == ["foo", "bar", "x"];
    assert w[..3][..2] == ["foo", "bar"];
    assert w[..3][..2][..1] == ["foo"];
    assert w[..3][..2][..1][..0] == [];
    assert Scan("foo", "bar", ["foo"], guard) == ScanState(None, Some("foo"), Some(0));
    assert Scan("foo", "bar", ["foo", "bar"], guard) == ScanState(Some(0), Some("bar"), Some(1));
    assert Scan("foo", "bar", ["foo", "bar", "x"], guard) == ScanState(Some(0), Some("bar"), Some(1));
  }

  /** In `foo bar x foo` the last `foo` completes a pair while the minimum is 0. */
  lemma ScanDefectOverwritesZero()
    ensures !ZeroNeverOverwritten("foo", "bar", ["foo", "bar", "x", "foo"])
  {
    var w := ["foo", "bar", "x", "foo"];
    assert w[..3] == ["foo", "bar", "x"];
    assert w[..3][..2] == ["foo", "bar"];
    assert w[..3][..2][..1] == ["foo"];
    assert w[..3][..2][..1][..0] == [];
    assert Scan("foo", "bar", ["foo"], AsWritten) == ScanState(None, Some("foo"), Some(0));
    assert Scan("foo", "bar", ["foo", "bar"], AsWritten) == ScanState(Some(0), Some("bar"), Some(1));
    assert Scan("foo", "bar", w[..3], AsWritten) == ScanState(Some(0), Some("bar"), Some(1));
    assert Completes(Scan("foo", "bar", w[..3], AsWritten), "foo", "bar", w[3]);
  }

  predicate NoMatch(words: seq<string>, a: string, b: string) {
    forall k :: 0 <= k < |words| ==> !IsMatch(words[k], a, b)
  }

  /** Tokens `p x q y` where `x` and `y` are the two different queries and nothing else matches: the first pair. */
  lemma ScanFirstPair(a: string, b: string, p: seq<string>, x: string, q: seq<string>, y: string, guard: Guard)
    requires a != b && ((x == a && y == b) || (x == b && y == a)) && x != ""
    requires NoMatch(p, a, b) && NoMatch(q, a, b)
    ensures Scan(a, b, p + [x] + q + [y], guard) == ScanState(Some(|q|), Some(y), Some(|p| + 1 + |q|))
  {
    ScanSkipsNonMatches(a, b, [], p, guard);
    assert [] + p == p;
    ScanSnoc(a, b, p, x, guard);
    assert Scan(a, b, p + [x], guard) == ScanState(None, Some(x), Some(|p|));
    ScanSkipsNonMatches(a, b, p + [x], q, guard);
    ScanSnoc(a, b, p + [x] + q, y, guard);
  }

  /**
   Tokens `p x q y r y t` where `x` and `y` are the two different queries and nothing else matches:
   the result is the number of tokens in `q`; the second `y` does not pair with the first.
   */
  lemma ScanNearestFirst(a: string, b: string, p: seq<string>, x: string, q: seq<string>, y: string,
                         r: seq<string>, t: seq<string>, guard: Guard)
    requires a != b && ((x == a && y == b) || (x == b && y == a)) && x != ""
    requires NoMatch(p, a, b) && NoMatch(q, a, b) && NoMatch(r, a, b) && NoMatch(t, a, b)
    ensures Scan(a, b, p + [x] + q + [y] + r + [y] + t, guard).minDistance == Some(|q|)
  {
    var u := p + [x] + q + [y];
    ScanFirstPair(a, b, p, x, q, y, guard);
    ScanSkipsNonMatches(a, b, u, r, guard);
    ScanSnoc(a, b, u + r, y, guard);
    ScanSkipsNonMatches(a, b, u + r + [y], t, guard);
  }

  lemma Regroup(p: seq<string>, x: string, q: seq<string>, y: string, r: seq<string>, t1: seq<string>, t2: seq<string>)
    ensures p + ([x] + q) + ([y] + r) + ([y] + t1) + t2 == p + [x] + q + [y] + r + [y] + (t1 + t2)
  {
    var u := p + [x] + q + [y] + r + [y];
    assert p + ([x] + q) + ([y] + r) + ([y] + t1) == u + t1;
  }

  lemma NoMatchAppend(t1: seq<string>, t2: seq<string>, a: string, b: string)
    requires NoMatch(t1, a, b) && NoMatch(t2, a, b)
    ensures NoMatch(t1 + t2, a, b)
  {
    assert forall k :: 0 <= k < |t1 + t2| ==> (t1 + t2)[k] == if k < |t1| then t1[k] else t2[k - |t1|];
  }

  /** `ScanNearestFirst` for tokens that come in the pieces `p`, `x q`, `y r`, `y t1` and `t2`. */
  lemma ScanNearestFirstPieces(a: string, b: string, p: seq<string>, x: string, q: seq<string>, y: string,
                               r: seq<string>, t1: seq<string>, t2: seq<string>)
    requires a != b && ((x == a && y == b) || (x == b && y == a)) && x != ""
    requires NoMatch(p, a, b) && NoMatch(q, a, b) && NoMatch(r, a, b) && NoMatch(t1, a, b) && NoMatch(t2, a, b)
    ensures Scan(a, b, p + ([x] + q) + ([y] + r) + ([y] + t1) + t2, AsWritten).minDistance == Some(|q|)
  {
    Regroup(p, x, q, y, r, t1, t2);
    NoMatchAppend(t1, t2, a, b);
    ScanNearestFirst(a, b, p, x, q, y, r, t1 + t2, AsWritten);
  }

  /** The lower case of a string, from the lower case of each of its characters. */
  lemma LowerIs(s: string, lowered: string)
    requires |lowered| == |s| && forall k :: 0 <= k < |s| ==> LowerChar(s[k]) == lowered[k]
    ensures Lower(s) == lowered
  {
  }

  // ---------------------------------------------------------------------------------------------
  // The examples, each with the lemma that proves it from the tokens of its text.

  /** Lines 15-17: with an empty text nothing is found. */
  lemma EmptyTextExample(a: string, b: string)
    ensures ShortestDistance(a, b, "") == None
  {
    WhitespaceTextNotFound(a, b, "");
  }

  /** The result for a text whose tokens come in the pieces of `ScanNearestFirstPieces`. */
  lemma NearestFirstFromTokens(a: string, b: string, s: string, qa: string, qb: string, p: seq<string>, x: string,
                               q: seq<string>, y: string, r: seq<string>, t1: seq<string>, t2: seq<string>)
    requires Lower(a) == qa && Lower(b) == qb
    requires qa != qb && ((x == qa && y == qb) || (x == qb && y == qa)) && x != ""
    requires NoMatch(p, qa, qb) && NoMatch(q, qa, qb) && NoMatch(r, qa, qb) && NoMatch(t1, qa, qb) && NoMatch(t2, qa, qb)
    requires Tokens(s) == p + ([x] + q) + ([y] + r) + ([y] + t1) + t2
    ensures ShortestDistance(a, b, s) == Some(|q|)
  {
    ScanNearestFirstPieces(qa, qb, p, x, q, y, r, t1, t2);
  }

  /** The queries of the two sentences are lower case. */
  lemma LowerMotivation()
    ensures Lower("motivation") == "motivation"
  {
    LowerIs("motivation", "motivation");
  }

  lemma LowerDevelopment()
    ensures Lower("development") == "development"
  {
    LowerIs("development", "development");
  }

  /** Only the two query words match among the tokens of the two sentences. */
  lemma SentenceNoMatch()
    ensures NoMatch(["we", "do"] + ["value", "and", "reward"], "motivation", "development")
    ensures NoMatch(["in", "our"], "motivation", "development")
    ensures NoMatch(["team."], "motivation", "development")
    ensures NoMatch(["is", "a", "key"], "motivation", "development")
    ensures NoMatch(["skill", "for", "a", "devop."], "motivation", "development")
  {
  }

  /** The tokens of the sentence of lines 8-9, grouped as `NearestFirstFromTokens` takes them. */
  lemma SentenceTokens()
    ensures Tokens("We do" + " " + "value and reward" + " " + "motivation in our" + " " + "development team." + " " +
                   "Development is a key" + " " + "skill for a DevOp.") ==
      (["we", "do"] + ["value", "and", "reward"]) + (["motivation"] + ["in", "our"]) + (["development"] + ["team."]) +
      (["development"] + ["is", "a", "key"]) + ["skill", "for", "a", "devop."]
  {
    TokensWeDo();
    TokensThenValueAndReward("We do");
    TokensThenMotivationInOur("We do" + " " + "value and reward");
    TokensThenDevelopmentTeam("We do" + " " + "value and reward" + " " + "motivation in our");
    TokensThenDevelopmentIsAKey("We do" + " " + "value and reward" + " " + "motivation in our" + " " + "development team.");
    TokensThenSkillForADevOp("We do" + " " + "value and reward" + " " + "motivation in our" + " " + "development team." + " " + "Development is a key");
  }

  /** The tokens of the sentence of lines 12-13. */
  lemma SwappedSentenceTokens()
    ensures Tokens("We do" + " " + "value and reward" + " " + "development in our" + " " + "motivation team." + " " +
                   "Motivation is a key" + " " + "skill for a DevOp.") ==
      (["we", "do"] + ["value", "and", "reward"]) + (["development"] + ["in", "our"]) + (["motivation"] + ["team."]) +
      (["motivation"] + ["is", "a", "key"]) + ["skill", "for", "a", "devop."]
  {
    TokensWeDo();
    TokensThenValueAndReward("We do");
    TokensThenDevelopmentInOur("We do" + " " + "value and reward");
    TokensThenMotivationTeam("We do" + " " + "value and reward" + " " + "development in our");
    TokensThenMotivationIsAKey("We do" + " " + "value and reward" + " " + "development in our" + " " + "motivation team.");
    TokensThenSkillForADevOp("We do" + " " + "value and reward" + " " + "development in our" + " " + "motivation team." + " " + "Motivation is a key");
  }

  /** Lines 8-9: the two words are two tokens apart; the later `Development` is not nearer to `motivation`. */
  lemma SentenceExample()
    ensures ShortestDistance("motivation", "development",
      "We do" + " " + "value and reward" + " " + "motivation in our" + " " + "development team." + " " +
      "Development is a key" + " " + "skill for a DevOp.") == Some(2)
  {
    SentenceTokens();
    LowerMotivation();
    LowerDevelopment();
    SentenceNoMatch();
    NearestFirstFromTokens("motivation", "development", "We do" + " " + "value and reward" + " " + "motivation in our" + " " + "development team." + " " + "Development is a key" + " " + "skill for a DevOp.",
      "motivation", "development", ["we", "do"] + ["value", "and", "reward"], "motivation", ["in", "our"], "development", ["team."],
      ["is", "a", "key"], ["skill", "for", "a", "devop."]);
  }

  /** Lines 11-13: the same with the two words swapped in the text; the order of the arguments does not matter. */
  lemma SwappedSentenceExample()
    ensures ShortestDistance("motivation", "development",
      "We do" + " " + "value and reward" + " " + "development in our" + " " + "motivation team." + " " +
      "Motivation is a key" + " " + "skill for a DevOp.") == Some(2)
  {
    SwappedSentenceTokens();
    LowerMotivation();
    LowerDevelopment();
    SentenceNoMatch();
    NearestFirstFromTokens("motivation", "development", "We do" + " " + "value and reward" + " " + "development in our" + " " + "motivation team." + " " + "Motivation is a key" + " " + "skill for a DevOp.",
      "motivation", "development", ["we", "do"] + ["value", "and", "reward"], "development", ["in", "our"], "motivation", ["team."],
      ["is", "a", "key"], ["skill", "for", "a", "devop."]);
  }

  lemma CaseInsensitiveFromTokens(a: string, b: string, s: string)
    requires a == "Foo" && b == "bar" && Tokens(s) == ["foo", "bar"]
    ensures ShortestDistance(a, b, s) == Some(0)
  {
    LowerIs(a, "foo");
    LowerIs(b, "bar");
    ScanTwoWords("foo", "bar");
  }

  /** Lines 19-21: search is case-insensitive. */
  lemma CaseInsensitiveExample()
    ensures ShortestDistance("Foo", "bar", "foo Bar") == Some(0)
  {
    TokensFooUpperBar();
    CaseInsensitiveFromTokens("Foo", "bar", "foo Bar");
  }

  lemma SameWordOnceFromTokens(a: string, b: string, s: string)
    requires a == "foo" && b == "foo" && Tokens(s) == ["foo"]
    ensures ShortestDistance(a, b, s) == None
  {
    LowerIs(a, "foo");
    LowerIs(b, "foo");
    ScanOneWord("foo");
  }

  /** Lines 23-25: equal queries need two occurrences. */
  lemma SameWordOnceExample()
    ensures ShortestDistance("foo", "foo", "foo") == None
  {
    TokensFoo();
    SameWordOnceFromTokens("foo", "foo", "foo");
  }

  lemma SameWordTwiceFromTokens(a: string, b: string, s: string)
    requires a == "foo" && b == "foo" && Tokens(s) == ["foo", "foo"]
    ensures ShortestDistance(a, b, s) == Some(0)
  {
    LowerIs(a, "foo");
    LowerIs(b, "foo");
    ScanTwoWords("foo", "foo");
  }

  /** Lines 26-27: two neighbouring occurrences of the same word are at distance 0. */
  lemma SameWordTwiceExample()
    ensures ShortestDistance("foo", "foo", "foo foo") == Some(0)
  {
    TokensFooFoo();
    SameWordTwiceFromTokens("foo", "foo", "foo foo");
  }

  lemma AttachedPunctuationFromTokens(a: string, b: string, s: string)
    requires a == "foo" && b == "bar" && Tokens(s) == ["foo.", "between", "bar"]
    ensures ShortestDistance(a, b, s) == None
  {
    var words := Tokens(s);
    LowerIs(a, "foo");
    LowerIs(b, "bar");
    NoQuery("foo", "bar", words);
  }

  /** Lines 29-31: punctuation attached to a word makes a different token. */
  lemma AttachedPunctuationExample()
    ensures ShortestDistance("foo", "bar", "foo. between bar") == None
  {
    TokensAttachedPunctuation();
    AttachedPunctuationFromTokens("foo", "bar", "foo. between bar");
  }

  lemma DetachedPunctuationFromTokens(a: string, b: string, s: string)
    requires a == "foo" && b == "bar" && Tokens(s) == ["foo", ".", "between", "bar"]
    ensures ShortestDistance(a, b, s) == Some(2)
  {
    LowerIs(a, "foo");
    LowerIs(b, "bar");
    ScanGapOfTwo("foo", "bar", ".", "between");
  }

  /** Lines 32-33: detached punctuation is a word of its own. */
  lemma DetachedPunctuationExample()
    ensures ShortestDistance("foo", "bar", "foo . between bar") == Some(2)
  {
    TokensDetachedPunctuation();
    DetachedPunctuationFromTokens("foo", "bar", "foo . between bar");
  }

  lemma MixedWhitespaceFromTokens(a: string, b: string, s: string)
    requires a == "foo" && b == "bar" && Tokens(s) == ["foo", "between", "between", "bar"]
    ensures ShortestDistance(a, b, s) == Some(2)
  {
    LowerIs(a, "foo");
    LowerIs(b, "bar");
    ScanGapOfTwo("foo", "bar", "between", "between");
  }

  /** Lines 35-37: newlines, tabs and runs of spaces separate words too. */
  lemma MixedWhitespaceExample()
    ensures ShortestDistance("foo", "bar", "foo\nbetween\tbetween  bar") == Some(2)
  {
    TokensMixedWhitespace();
    MixedWhitespaceFromTokens("foo", "bar", "foo\nbetween\tbetween  bar");
  }

  lemma EmojiFromTokens(a: string, b: string, s: string)
    requires a == "\U{1F604}isAnEmoji" && b == "foo" && Tokens(s) == ["foo", "bar", "\U{1F604}isanemoji"]
    ensures ShortestDistance(a, b, s) == Some(1)
  {
    LowerIs(a, "\U{1F604}isanemoji");
    LowerIs(b, "foo");
    ScanEmoji();
  }

  /** Lines 39-41: characters outside ASCII are matched like any other. */
  lemma EmojiExample()
    ensures ShortestDistance("\U{1F604}isAnEmoji", "foo", "foo bar \U{1F604}isAnEmoji") == Some(1)
  {
    TokensEmoji();
    EmojiFromTokens("\U{1F604}isAnEmoji", "foo", "foo bar \U{1F604}isAnEmoji");
  }

  lemma EmbeddedWordFromTokens(a: string, b: string, s: string)
    requires a == "foo" && b == "bar" && Tokens(s) == ["foobaz", "bar"]
    ensures ShortestDistance(a, b, s) == None
  {
    var words := Tokens(s);
    LowerIs(a, "foo");
    LowerIs(b, "bar");
    NoQuery("foo", "bar", words);
  }

  /** Lines 43-45: a query inside a longer token does not match. */
  lemma EmbeddedWordExample()
    ensures ShortestDistance("foo", "bar", "foobaz bar") == None
  {
    TokensEmbeddedWord();
    EmbeddedWordFromTokens("foo", "bar", "foobaz bar");
  }

  lemma LaterPairNearerFromTokens(a: string, b: string, s: string)
    requires a == "foo" && b == "bar" && Tokens(s) == ["foo", "word", "bar", "foo"]
    ensures ShortestDistance(a, b, s) == Some(0)
  {
    LowerIs(a, "foo");
    LowerIs(b, "bar");
    ScanLaterPairNearer();
  }

  /** Lines 47-49: the shortest distance need not be the first one. */
  lemma LaterPairNearerExample()
    ensures ShortestDistance("foo", "bar", "foo word bar foo") == Some(0)
  {
    TokensLaterPairNearer();
    LaterPairNearerFromTokens("foo", "bar", "foo word bar foo");
  }

  lemma DefectFromTokens(a: string, b: string, s: string)
    requires a == "foo" && b == "bar" && Tokens(s) == ["foo", "bar", "x", "foo"]
    ensures ShortestDistance(a, b, s) == Some(1)
    ensures IntendedShortestDistance(a, b, s) == Some(0)
    ensures IsShortest(Tokens(s), Lower(a), Lower(b), 0)
    ensures !ZeroNeverOverwritten(Lower(a), Lower(b), Tokens(s))
  {
    LowerIs(a, "foo");
    LowerIs(b, "bar");
    ScanDefectOverwritesZero();
    ScanDefect(AsWritten);
    ScanDefect(Intended);
    IntendedIsShortest(a, b, s);
  }

  /**
   Line 62 treats a minimum of 0 as "none yet": in `foo bar x foo` the adjacent pair `foo bar` is
   overwritten by the later pair `bar x foo`, so the result is 1, while with the corrected test it is
   0, the shortest distance (`DefectFromTokens`).
   */
  lemma DefectExample()
    ensures ShortestDistance("foo", "bar", "foo bar x foo") == Some(1)
    ensures IntendedShortestDistance("foo", "bar", "foo bar x foo") == Some(0)
  {
    TokensDefect();
    DefectFromTokens("foo", "bar", "foo bar x foo");
  }
}
