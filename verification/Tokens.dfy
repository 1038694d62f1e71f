/** Splitting a text into words: letters and digits that stand together, with a single hyphen or
    apostrophe between two of them counted in. */
module Tokens {
  import opened Text

  /** What the code takes from Unicode: which characters are letters or digits, and how a word
      is lower-cased. */
  datatype Alphabet = Alphabet(letter: char -> bool, lower: string -> string)

  predicate IsJoiner(c: char) { c == '-' || c == '\'' || c == '’' }

  /** The few facts about Unicode the proofs need. */
  ghost predicate Lawful(abc: Alphabet) {
    && (forall c: char :: IsSpace(c) || IsJoiner(c) || c == '\U{1}' ==> !abc.letter(c))
    && (forall w: string :: w != "" ==> abc.lower(w) != "")
    && (forall w: string :: (forall c | c in w :: !IsSpace(c)) ==> forall c | c in abc.lower(w) :: !IsSpace(c))
    && (forall w: string :: '\U{1}' !in w ==> '\U{1}' !in abc.lower(w))
  }

  /** `i` position in the passage, `w` the word, `[s, e)` its characters. */
  datatype Token = Token(i: nat, w: string, s: nat, e: nat)

  function RunEnd(abc: Alphabet, text: string, k: nat): (e: nat)
    requires k <= |text|
    ensures k <= e <= |text| && (e < |text| ==> !abc.letter(text[e]))
    decreases |text| - k
  {
    if k < |text| && abc.letter(text[k]) then RunEnd(abc, text, k + 1) else k
  }

  lemma {:induction false} RunLetters(abc: Alphabet, text: string, k: nat)
    requires k <= |text|
    ensures forall t | k <= t < RunEnd(abc, text, k) :: abc.letter(text[t])
    decreases |text| - k
  {
    if k < |text| && abc.letter(text[k]) { RunLetters(abc, text, k + 1); }
  }

  /** One past the token that starts at `k`. */
  function TokenEnd(abc: Alphabet, text: string, k: nat): (e: nat)
    requires k < |text| && abc.letter(text[k])
    ensures k < e <= |text| && (e < |text| ==> !abc.letter(text[e]))
    decreases |text| - k
  {
    var r := RunEnd(abc, text, k);
    if r + 1 < |text| && IsJoiner(text[r]) && abc.letter(text[r + 1]) then TokenEnd(abc, text, r + 1) else r
  }

  lemma TokenEndIs(abc: Alphabet, text: string, k: nat)
    requires k < |text| && abc.letter(text[k])
    ensures var r := RunEnd(abc, text, k);
            TokenEnd(abc, text, k)
            == if r + 1 < |text| && IsJoiner(text[r]) && abc.letter(text[r + 1]) then TokenEnd(abc, text, r + 1) else r
  {}

  function TokensFrom(abc: Alphabet, text: string, k: nat, i: nat): seq<Token>
    requires k <= |text|
    decreases |text| - k
  {
    if k == |text| then []
    else if abc.letter(text[k]) then
      var e := TokenEnd(abc, text, k);
      [Token(i, text[k..e], k, e)] + TokensFrom(abc, text, e, i + 1)
    else TokensFrom(abc, text, k + 1, i)
  }

  function Tokenize(abc: Alphabet, text: string): seq<Token> { TokensFrom(abc, text, 0, 0) }

  function WordsOf(ts: seq<Token>): (ws: seq<string>)
    ensures |ws| == |ts|
  {
    seq(|ts|, k requires 0 <= k < |ts| => ts[k].w)
  }

  // ----- What the rest of the kernel relies on -----

  /** Tokens in text order, numbered by position, apart from one another. */
  ghost predicate Ordered(ts: seq<Token>, n: nat) {
    && (forall k | 0 <= k < |ts| :: ts[k].i == k && ts[k].s < ts[k].e <= n)
    && (forall k, l | 0 <= k < l < |ts| :: ts[k].e < ts[l].s)
  }

  /** `ts` are tokens of `text` at or after `k`, numbered from `i`. */
  ghost predicate Located(ts: seq<Token>, text: string, k: nat, i: nat) {
    forall t | 0 <= t < |ts| ::
      ts[t].i == i + t && k <= ts[t].s < ts[t].e <= |text| && ts[t].w == text[ts[t].s..ts[t].e]
  }

  ghost predicate Apart(ts: seq<Token>) { forall t, u | 0 <= t < u < |ts| :: ts[t].e < ts[u].s }

  lemma {:induction false} TokensFromLocated(abc: Alphabet, text: string, k: nat, i: nat)
    requires k <= |text|
    ensures Located(TokensFrom(abc, text, k, i), text, k, i)
    ensures k < |text| && !abc.letter(text[k]) ==> Located(TokensFrom(abc, text, k, i), text, k + 1, i)
    decreases |text| - k
  {
    if k < |text| {
      if abc.letter(text[k]) {
        var e := TokenEnd(abc, text, k);
        TokensFromLocated(abc, text, e, i + 1);
        LocatedCons(Token(i, text[k..e], k, e), TokensFrom(abc, text, e, i + 1), text, k, i);
      } else {
        TokensFromLocated(abc, text, k + 1, i);
      }
    }
  }

  lemma LocatedCons(t: Token, rest: seq<Token>, text: string, k: nat, i: nat)
    requires t.i == i && k == t.s < t.e <= |text| && t.w == text[t.s..t.e] && Located(rest, text, t.e, i + 1)
    ensures Located([t] + rest, text, k, i)
  {
    var ts := [t] + rest;
    assert forall u | 1 <= u < |ts| :: ts[u] == rest[u - 1];
  }

  lemma {:induction false} TokensFromApart(abc: Alphabet, text: string, k: nat, i: nat)
    requires k <= |text|
    ensures Apart(TokensFrom(abc, text, k, i))
    decreases |text| - k
  {
    if k < |text| {
      if abc.letter(text[k]) {
        var e := TokenEnd(abc, text, k);
        TokensFromLocated(abc, text, e, i + 1);
        TokensFromApart(abc, text, e, i + 1);
        ApartCons(Token(i, text[k..e], k, e), TokensFrom(abc, text, e, i + 1), text, i + 1);
      } else {
        TokensFromApart(abc, text, k + 1, i);
      }
    }
  }

  lemma ApartCons(t: Token, rest: seq<Token>, text: string, i: nat)
    requires Apart(rest) && (rest != [] ==> Located(rest, text, t.e + 1, i))
    ensures Apart([t] + rest)
  {
    var ts := [t] + rest;
    assert forall u | 1 <= u < |ts| :: ts[u] == rest[u - 1];
  }

  lemma TokenizeOrdered(abc: Alphabet, text: string)
    ensures Ordered(Tokenize(abc, text), |text|)
    ensures forall t | t in Tokenize(abc, text) :: t.s < t.e <= |text| && t.w == text[t.s..t.e]
  {
    TokensFromLocated(abc, text, 0, 0);
    TokensFromApart(abc, text, 0, 0);
  }

  // ----- Characters of a token -----

  lemma {:induction false} TokenChars(abc: Alphabet, text: string, k: nat)
    requires k < |text| && abc.letter(text[k])
    ensures forall t | k <= t < TokenEnd(abc, text, k) :: abc.letter(text[t]) || IsJoiner(text[t])
    decreases |text| - k
  {
    RunLetters(abc, text, k);
    var r := RunEnd(abc, text, k);
    if r + 1 < |text| && IsJoiner(text[r]) && abc.letter(text[r + 1]) { TokenChars(abc, text, r + 1); }
  }

  lemma {:induction false} TokenWords(abc: Alphabet, text: string, k: nat, i: nat)
    requires k <= |text|
    ensures forall t | t in TokensFrom(abc, text, k, i) ::
              t.w != "" && forall c | c in t.w :: abc.letter(c) || IsJoiner(c)
    decreases |text| - k
  {
    if k < |text| {
      if abc.letter(text[k]) {
        TokenChars(abc, text, k);
        TokenWords(abc, text, TokenEnd(abc, text, k), i + 1);
      } else {
        TokenWords(abc, text, k + 1, i);
      }
    }
  }

  /** A word has no space and no separator in it, as written or lower-cased. */
  ghost predicate Wordly(abc: Alphabet, w: string) {
    && Clean(w) && '\U{1}' !in w
    && Clean(abc.lower(w)) && '\U{1}' !in abc.lower(w)
  }

  lemma TokensAreWordly(abc: Alphabet, text: string)
    requires Lawful(abc)
    ensures forall t | t in Tokenize(abc, text) :: Wordly(abc, t.w)
  {
    TokenWords(abc, text, 0, 0);
    forall t | t in Tokenize(abc, text) ensures Wordly(abc, t.w) {
      assert forall c | c in t.w :: !IsSpace(c) && c != '\U{1}';
    }
  }

  // ----- Tokens of a concatenation -----

  lemma {:induction false} RunEndUnique(abc: Alphabet, text: string, k: nat, e: nat)
    requires k <= e <= |text| && (forall t | k <= t < e :: abc.letter(text[t]))
    requires e < |text| ==> !abc.letter(text[e])
    ensures RunEnd(abc, text, k) == e
    decreases e - k
  {
    if k < e { RunEndUnique(abc, text, k + 1, e); }
  }

  /** A character that is neither a letter nor a joiner ends every token before it. */
  ghost predicate Gap(abc: Alphabet, c: char) { !abc.letter(c) && !IsJoiner(c) }

  lemma {:induction false} TokenEndBeforeGap(abc: Alphabet, a: string, c: char, b: string, k: nat)
    requires Gap(abc, c) && k < |a| && abc.letter(a[k])
    ensures TokenEnd(abc, a + [c] + b, k) == TokenEnd(abc, a, k)
    decreases |a| - k
  {
    var s := a + [c] + b;
    var r := RunEnd(abc, a, k);
    RunEndBeforeGap(abc, a, c, b, k);
    assert r < |a| ==> s[r] == a[r];
    assert r + 1 < |a| ==> s[r + 1] == a[r + 1];
    assert s[|a|] == c;
    if r + 1 < |a| && IsJoiner(a[r]) && abc.letter(a[r + 1]) { TokenEndBeforeGap(abc, a, c, b, r + 1); }
  }

  lemma RunEndBeforeGap(abc: Alphabet, a: string, c: char, b: string, k: nat)
    requires Gap(abc, c) && k <= |a|
    ensures RunEnd(abc, a + [c] + b, k) == RunEnd(abc, a, k)
  {
    var s, r := a + [c] + b, RunEnd(abc, a, k);
    RunLetters(abc, a, k);
    assert forall t | 0 <= t < |a| :: s[t] == a[t];
    assert s[|a|] == c;
    RunEndUnique(abc, s, k, r);
  }

  /** From `d` on the text reads `b`, to its end. */
  ghost predicate Reads(text: string, d: nat, b: string) {
    d + |b| == |text| && forall k | 0 <= k < |b| :: text[d + k] == b[k]
  }

  lemma SuffixReads(text: string, b: string)
    requires |b| <= |text| && text[|text| - |b|..] == b
    ensures Reads(text, |text| - |b|, b)
  {
    forall k | 0 <= k < |b| ensures text[|text| - |b| + k] == b[k] { assert text[|text| - |b|..][k] == b[k]; }
  }

  /** `b` may be read at the end of a longer text. */
  lemma {:induction false} TokenEndShift(abc: Alphabet, text: string, d: nat, b: string, k: nat)
    requires Reads(text, d, b) && k < |b| && abc.letter(b[k])
    ensures d + k < |text| && abc.letter(text[d + k]) && TokenEnd(abc, text, d + k) == d + TokenEnd(abc, b, k)
    decreases |b| - k
  {
    var r := RunEnd(abc, b, k);
    RunEndShift(abc, text, d, b, k);
    assert text[d + k] == b[k];
    assert r + 1 < |b| ==> text[d + r] == b[r] && text[d + (r + 1)] == b[r + 1];
    if r + 1 < |b| && IsJoiner(b[r]) && abc.letter(b[r + 1]) { TokenEndShift(abc, text, d, b, r + 1); }
    EndAlike(abc, text, d + k, d + r, b, k, r, d);
  }

  /** Where the run ends alike and goes on alike, so does the token. */
  lemma EndAlike(abc: Alphabet, a: string, i: nat, q: nat, b: string, k: nat, r: nat, d: nat)
    requires i < |a| && abc.letter(a[i]) && k < |b| && abc.letter(b[k]) && |a| == d + |b|
    requires q == RunEnd(abc, a, i) && r == RunEnd(abc, b, k) && q == d + r
    requires r + 1 < |b| ==> a[q] == b[r] && a[q + 1] == b[r + 1]
    requires r + 1 < |b| && IsJoiner(b[r]) && abc.letter(b[r + 1]) ==> TokenEnd(abc, a, q + 1) == d + TokenEnd(abc, b, r + 1)
    ensures TokenEnd(abc, a, i) == d + TokenEnd(abc, b, k)
  {
    TokenEndIs(abc, a, i);
    TokenEndIs(abc, b, k);
  }

  lemma {:induction false} RunEndShift(abc: Alphabet, text: string, d: nat, b: string, k: nat)
    requires Reads(text, d, b) && k <= |b|
    ensures RunEnd(abc, text, d + k) == d + RunEnd(abc, b, k)
    decreases |b| - k
  {
    if k < |b| && abc.letter(b[k]) { RunEndShift(abc, text, d, b, k + 1); }
  }

  lemma SuffixSlice(text: string, d: nat, b: string, k: nat, e: nat)
    requires Reads(text, d, b) && k <= e <= |b|
    ensures text[d + k..d + e] == b[k..e]
  {
    forall t | 0 <= t < e - k ensures text[d + k..d + e][t] == b[k..e][t] { assert text[d + (k + t)] == b[k + t]; }
  }

  function WordsFrom(abc: Alphabet, text: string, k: nat): seq<string>
    requires k <= |text|
    decreases |text| - k
  {
    if k == |text| then []
    else if abc.letter(text[k]) then
      [text[k..TokenEnd(abc, text, k)]] + WordsFrom(abc, text, TokenEnd(abc, text, k))
    else WordsFrom(abc, text, k + 1)
  }

  lemma {:induction false} WordsFromTokens(abc: Alphabet, text: string, k: nat, i: nat)
    requires k <= |text|
    ensures WordsOf(TokensFrom(abc, text, k, i)) == WordsFrom(abc, text, k)
    decreases |text| - k
  {
    if k < |text| {
      if abc.letter(text[k]) {
        var e := TokenEnd(abc, text, k);
        WordsFromTokens(abc, text, e, i + 1);
        var rest := TokensFrom(abc, text, e, i + 1);
        assert WordsOf([Token(i, text[k..e], k, e)] + rest) == [text[k..e]] + WordsOf(rest);
      } else {
        WordsFromTokens(abc, text, k + 1, i);
      }
    }
  }

  lemma WordsFromShift(abc: Alphabet, text: string, b: string, k: nat)
    requires |b| <= |text| && text[|text| - |b|..] == b && k <= |b|
    ensures WordsFrom(abc, text, |text| - |b| + k) == WordsFrom(abc, b, k)
  {
    SuffixReads(text, b);
    WordsFromReads(abc, text, |text| - |b|, b, k);
  }

  lemma {:induction false} WordsFromReads(abc: Alphabet, text: string, d: nat, b: string, k: nat)
    requires Reads(text, d, b) && k <= |b|
    ensures WordsFrom(abc, text, d + k) == WordsFrom(abc, b, k)
    decreases |b| - k
  {
    if k < |b| {
      assert text[d + k] == b[k];
      if abc.letter(b[k]) {
        var e := TokenEnd(abc, b, k);
        TokenEndShift(abc, text, d, b, k);
        SuffixSlice(text, d, b, k, e);
        WordsFromReads(abc, text, d, b, e);
      } else {
        WordsFromReads(abc, text, d, b, k + 1);
      }
    }
  }

  lemma {:induction false} WordsFromGap(abc: Alphabet, a: string, c: char, b: string, k: nat)
    requires Gap(abc, c) && k <= |a|
    ensures WordsFrom(abc, a + [c] + b, k) == WordsFrom(abc, a, k) + WordsFrom(abc, b, 0)
    decreases |a| - k
  {
    var s := a + [c] + b;
    if k == |a| {
      assert s[k] == c && s[|s| - |b|..] == b;
      WordsFromShift(abc, s, b, 0);
    } else {
      assert s[k] == a[k];
      if abc.letter(a[k]) {
        var e := TokenEnd(abc, a, k);
        TokenEndBeforeGap(abc, a, c, b, k);
        assert s[k..e] == a[k..e];
        WordsFromGap(abc, a, c, b, e);
        var x, y, z := [a[k..e]], WordsFrom(abc, a, e), WordsFrom(abc, b, 0);
        assert x + (y + z) == (x + y) + z;
      } else {
        WordsFromGap(abc, a, c, b, k + 1);
      }
    }
  }

  function WordList(abc: Alphabet, text: string): seq<string> { WordsOf(Tokenize(abc, text)) }

  /** The words of two texts with a space between them are the words of one, then the other. */
  lemma WordsOfJoin(abc: Alphabet, a: string, b: string)
    requires Gap(abc, ' ')
    ensures WordList(abc, a + " " + b) == WordList(abc, a) + WordList(abc, b)
  {
    WordsFromTokens(abc, a + " " + b, 0, 0);
    WordsFromTokens(abc, a, 0, 0);
    WordsFromTokens(abc, b, 0, 0);
    WordsFromGap(abc, a, ' ', b, 0);
  }

  lemma {:induction false} WordsOfTrimStart(abc: Alphabet, s: string)
    requires Lawful(abc)
    ensures WordList(abc, TrimStart(s)) == WordList(abc, s)
  {
    if s != "" && IsSpace(s[0]) {
      WordsOfTrimStart(abc, s[1..]);
      WordsFromTokens(abc, s, 0, 0);
      WordsFromTokens(abc, s[1..], 0, 0);
      WordsFromShift(abc, s, s[1..], 0);
    }
  }

  lemma {:induction false} WordsOfTrimEnd(abc: Alphabet, s: string)
    requires Lawful(abc)
    ensures WordList(abc, TrimEnd(s)) == WordList(abc, s)
    decreases |s|
  {
    if s != "" && IsSpace(s[|s| - 1]) {
      var t, c := s[..|s| - 1], s[|s| - 1];
      WordsOfTrimEnd(abc, t);
      WordsFromTokens(abc, s, 0, 0);
      WordsFromTokens(abc, t, 0, 0);
      assert s == t + [c] + "" && Gap(abc, c);
      WordsFromGap(abc, t, c, "", 0);
    }
  }

  /** Trimming a text changes none of its words. */
  lemma WordsOfTrim(abc: Alphabet, s: string)
    requires Lawful(abc)
    ensures WordList(abc, Trim(s)) == WordList(abc, s)
  {
    WordsOfTrimStart(abc, s);
    WordsOfTrimEnd(abc, TrimStart(s));
  }
}
