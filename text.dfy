/**
 Tokenisation of the text: `s.lower().split()`.

 Lowering is done character by character and covers the ASCII letters only; whitespace is the set
 of characters Python's argument-less `str.split()` splits on.
 */
module Text {

  /**
   The characters Python's `str.isspace()` accepts, which `str.split()` treats as separators: tab,
   line feed, line tabulation, form feed, carriage return, U+001C-U+001F, space, U+0085, U+00A0,
   U+1680, U+2000-U+200A, U+2028, U+2029, U+202F, U+205F and U+3000.
   */
  predicate IsWhitespace(c: char) {
    if c <= ' ' then c == ' ' || ('\t' <= c <= '\r') || ('\U{001C}' <= c <= '\U{001F}')
    else if c < '\U{0085}' then false
    else
      || c == '\U{0085}' || c == '\U{00A0}' || c == '\U{1680}'
      || ('\U{2000}' <= c <= '\U{200A}')
      || c == '\U{2028}' || c == '\U{2029}' || c == '\U{202F}' || c == '\U{205F}' || c == '\U{3000}'
  }

  /** Lower-case mapping of one character (ASCII letters; every other character is its own lower case). */
  function LowerChar(c: char): (d: char)
    ensures 'A' <= c <= 'Z' ==> d as int == c as int + 32 && 'a' <= d <= 'z'
    ensures !('A' <= c <= 'Z') ==> d == c
    ensures IsWhitespace(d) <==> IsWhitespace(c)
  {
    if 'A' <= c <= 'Z' then (c as int + 32) as char else c
  }

  /** `str.lower()`: lowers every character and keeps the length. */
  function Lower(s: string): (r: string)
    ensures |r| == |s|
    ensures forall k :: 0 <= k < |s| ==> r[k] == LowerChar(s[k])
  {
    if s == [] then [] else [LowerChar(s[0])] + Lower(s[1..])
  }

  /** Lowering twice is lowering once. */
  lemma LowerIdempotent(s: string)
    ensures Lower(Lower(s)) == Lower(s)
  {
    var once := Lower(s);
    assert forall k :: 0 <= k < |s| ==> Lower(once)[k] == once[k];
  }

  lemma LowerAppend(x: string, y: string)
    ensures Lower(x + y) == Lower(x) + Lower(y)
  {
    assert forall k :: 0 <= k < |x + y| ==> Lower(x + y)[k] == (Lower(x) + Lower(y))[k];
  }

  /** A token: a non-empty string without whitespace. */
  predicate IsToken(w: string) {
    w != [] && forall k :: 0 <= k < |w| ==> !IsWhitespace(w[k])
  }

  predicate AllWhitespace(s: string) {
    forall k :: 0 <= k < |s| ==> IsWhitespace(s[k])
  }

  /** The length of the run of non-whitespace characters at the start of `s`. */
  function WordLength(s: string): (n: nat)
    ensures n <= |s|
    ensures forall k :: 0 <= k < n ==> !IsWhitespace(s[k])
    ensures n == |s| || IsWhitespace(s[n])
  {
    if s == [] || IsWhitespace(s[0]) then 0 else 1 + WordLength(s[1..])
  }

  /** `str.split()` with no argument: the maximal whitespace-free pieces of `s`, in order. */
  function Split(s: string): (words: seq<string>)
    ensures forall k :: 0 <= k < |words| ==> IsToken(words[k])
    decreases |s|
  {
    if s == [] then []
    else if IsWhitespace(s[0]) then Split(s[1..])
    else
      var n := WordLength(s);
      [s[..n]] + Split(s[n..])
  }

  /** The characters of `s` that are not whitespace, in order. */
  function NonWhitespace(s: string): string {
    if s == [] then []
    else if IsWhitespace(s[0]) then NonWhitespace(s[1..])
    else [s[0]] + NonWhitespace(s[1..])
  }

  function Concat(words: seq<string>): string {
    if words == [] then [] else words[0] + Concat(words[1..])
  }

  lemma {:induction false} NonWhitespaceAppend(x: string, y: string)
    ensures NonWhitespace(x + y) == NonWhitespace(x) + NonWhitespace(y)
    decreases |x|
  {
    if x == [] {
      assert x + y == y;
    } else {
      assert (x + y)[0] == x[0];
      assert (x + y)[1..] == x[1..] + y;
      NonWhitespaceAppend(x[1..], y);
    }
  }

  lemma {:induction false} NonWhitespaceOfWord(w: string)
    requires forall k :: 0 <= k < |w| ==> !IsWhitespace(w[k])
    ensures NonWhitespace(w) == w
    decreases |w|
  {
    if w != [] {
      NonWhitespaceOfWord(w[1..]);
      assert w == [w[0]] + w[1..];
    }
  }

  /** Tokens appear in text order and together hold exactly the non-whitespace characters of the text. */
  lemma {:induction false} SplitKeepsText(s: string)
    ensures Concat(Split(s)) == NonWhitespace(s)
    decreases |s|
  {
    if s != [] {
      if IsWhitespace(s[0]) {
        SplitKeepsText(s[1..]);
      } else {
        var n := WordLength(s);
        var rest := Split(s[n..]);
        assert ([s[..n]] + rest)[1..] == rest;
        SplitKeepsText(s[n..]);
        assert s == s[..n] + s[n..];
        NonWhitespaceAppend(s[..n], s[n..]);
        NonWhitespaceOfWord(s[..n]);
      }
    }
  }

  /** Text made only of whitespace (including the empty text) has no tokens. */
  lemma {:induction false} SplitAllWhitespace(s: string)
    requires AllWhitespace(s)
    ensures Split(s) == []
    decreases |s|
  {
    if s != [] {
      SplitAllWhitespace(s[1..]);
    }
  }

  /** A token on its own splits into itself. */
  lemma SplitToken(w: string)
    requires IsToken(w)
    ensures Split(w) == [w]
  {
    assert WordLength(w) == |w|;
    assert w[..|w|] == w;
    assert w[|w|..] == [];
  }

  /** The first word of `x` ends at the same place in `x + z` when `x` already ends it or `z` starts with whitespace. */
  lemma {:induction false} WordLengthAppend(x: string, z: string)
    requires WordLength(x) < |x| || z == [] || IsWhitespace(z[0])
    ensures WordLength(x + z) == WordLength(x)
    decreases |x|
  {
    if x == [] {
      assert x + z == z;
    } else if !IsWhitespace(x[0]) {
      assert (x + z)[1..] == x[1..] + z;
      WordLengthAppend(x[1..], z);
    }
  }

  /** A whitespace character is a token boundary: the text either side of it splits independently. */
  lemma {:induction false} SplitAtSeparator(x: string, c: char, y: string)
    requires IsWhitespace(c)
    ensures Split(x + [c] + y) == Split(x) + Split(y)
    decreases |x|
  {
    var t := x + [c] + y;
    if x == [] {
      assert t[1..] == y;
    } else if IsWhitespace(x[0]) {
      assert t[1..] == x[1..] + [c] + y;
      SplitAtSeparator(x[1..], c, y);
    } else {
      var n := WordLength(x);
      WordLengthAppend(x, [c] + y);
      assert t == x + ([c] + y);
      assert t[..n] == x[..n];
      assert t[n..] == x[n..] + [c] + y;
      SplitAtSeparator(x[n..], c, y);
    }
  }

  /** Leading whitespace produces no token. */
  lemma {:induction false} SplitDropsLeadingWhitespace(w: string, y: string)
    requires AllWhitespace(w)
    ensures Split(w + y) == Split(y)
    decreases |w|
  {
    if w == [] {
      assert w + y == y;
    } else {
      assert (w + y)[0] == w[0];
      assert (w + y)[1..] == w[1..] + y;
      SplitDropsLeadingWhitespace(w[1..], y);
    }
  }

  /** Any non-empty run of whitespace, of any mix of characters, is one token boundary. */
  lemma SplitAtWhitespaceRun(x: string, w: string, y: string)
    requires w != [] && AllWhitespace(w)
    ensures Split(x + w + y) == Split(x) + Split(y)
    ensures Split(x + w + y) == Split(x + " " + y)
  {
    assert x + w + y == x + [w[0]] + (w[1..] + y);
    SplitAtSeparator(x, w[0], w[1..] + y);
    SplitDropsLeadingWhitespace(w[1..], y);
    SplitAtSeparator(x, ' ', y);
  }

  /** Tokens written out with the given separators between neighbours. */
  function Joined(words: seq<string>, separators: seq<string>): string {
    if words == [] then []
    else if |words| == 1 || separators == [] then words[0]
    else words[0] + separators[0] + Joined(words[1..], separators[1..])
  }

  predicate IsSeparator(sep: string) {
    sep != [] && AllWhitespace(sep)
  }

  /** Splitting undoes joining tokens with whitespace runs. */
  lemma {:induction false} SplitJoined(words: seq<string>, separators: seq<string>)
    requires forall k :: 0 <= k < |words| ==> IsToken(words[k])
    requires |separators| + 1 == |words|
    requires forall k :: 0 <= k < |separators| ==> IsSeparator(separators[k])
    ensures Split(Joined(words, separators)) == words
    decreases |words|
  {
    if |words| == 1 {
      SplitToken(words[0]);
    } else {
      SplitJoined(words[1..], separators[1..]);
      SplitToken(words[0]);
      SplitAtWhitespaceRun(words[0], separators[0], Joined(words[1..], separators[1..]));
      assert words == [words[0]] + words[1..];
    }
  }

  function LowerEach(words: seq<string>): (lowered: seq<string>)
    ensures |lowered| == |words|
    ensures forall k :: 0 <= k < |words| ==> lowered[k] == Lower(words[k])
  {
    if words == [] then [] else [Lower(words[0])] + LowerEach(words[1..])
  }

  lemma {:induction false} LowerJoined(words: seq<string>, separators: seq<string>)
    ensures Lower(Joined(words, separators)) == Joined(LowerEach(words), LowerEach(separators))
    decreases |words|
  {
    if |words| > 1 && separators != [] {
      LowerJoined(words[1..], separators[1..]);
      LowerAppend(words[0] + separators[0], Joined(words[1..], separators[1..]));
      LowerAppend(words[0], separators[0]);
      assert LowerEach(words)[1..] == LowerEach(words[1..]);
      assert LowerEach(separators)[1..] == LowerEach(separators[1..]);
    }
  }

  /** The tokens of a lowered text made of tokens and whitespace runs are the lowered tokens. */
  lemma SplitLowerJoined(words: seq<string>, separators: seq<string>)
    requires forall k :: 0 <= k < |words| ==> IsToken(words[k])
    requires |separators| + 1 == |words|
    requires forall k :: 0 <= k < |separators| ==> IsSeparator(separators[k])
    ensures Split(Lower(Joined(words, separators))) == LowerEach(words)
  {
    LowerJoined(words, separators);
    SplitJoined(LowerEach(words), LowerEach(separators));
  }
}
