/** The words of the characters a run of tokens covers are the words of the run. */
module Surfaces {
  import opened Tokens
  import opened Coordinates

  function LowerAll(abc: Alphabet, ws: seq<string>): (out: seq<string>)
    ensures |out| == |ws| && forall k | 0 <= k < |ws| :: out[k] == abc.lower(ws[k])
  {
    seq(|ws|, k requires 0 <= k < |ws| => abc.lower(ws[k]))
  }

  /** The lower-cased words of a run, as the re-anchoring compares them. */
  function RunWords(abc: Alphabet, ts: seq<Token>, r: Run): (ws: seq<string>)
    ensures r.t0 <= r.t1 < |ts| ==> |ws| == r.t1 + 1 - r.t0 && forall k | 0 <= k < |ws| :: ws[k] == abc.lower(ts[r.t0 + k].w)
  {
    if r.t0 <= r.t1 < |ts| then LowerAll(abc, WordsOf(ts[r.t0..r.t1 + 1])) else []
  }

  function Surface(text: string, ts: seq<Token>, r: Run): string {
    var range := ToRange(ts, r);
    if 0 <= range.start <= range.end <= |text| then text[range.start..range.end] else ""
  }

  /** Cutting the text behind a token does not change where the token ends. */
  lemma {:induction false} CutTokenEnd(abc: Alphabet, text: string, e: nat, k: nat)
    requires k < e <= |text| && abc.letter(text[k]) && TokenEnd(abc, text, k) <= e
    ensures TokenEnd(abc, text[..e], k) == TokenEnd(abc, text, k)
    decreases e - k
  {
    var r := RunEnd(abc, text, k);
    var cut := text[..e];
    assert forall t | 0 <= t < e :: cut[t] == text[t];
    RunLetters(abc, text, k);
    RunEndUnique(abc, cut, k, r);
    if r + 1 < |text| && IsJoiner(text[r]) && abc.letter(text[r + 1]) { CutTokenEnd(abc, text, e, r + 1); }
    TokenEndIs(abc, text, k);
    TokenEndIs(abc, cut, k);
  }

  lemma {:induction false} CutWords(abc: Alphabet, text: string, k: nat, i: nat, m: nat)
    requires k <= |text| && m < |TokensFrom(abc, text, k, i)|
    ensures var ts := TokensFrom(abc, text, k, i);
            k <= ts[m].e <= |text| && WordsFrom(abc, text[..ts[m].e], k) == WordsOf(ts)[..m + 1]
    decreases |text| - k
  {
    var ts := TokensFrom(abc, text, k, i);
    TokensFromLocated(abc, text, k, i);
    var e := ts[m].e;
    if abc.letter(text[k]) {
      var f := TokenEnd(abc, text, k);
      var rest := TokensFrom(abc, text, f, i + 1);
      if m == 0 {
        CutTokenEnd(abc, text, e, k);
        CutStep(abc, text, e, k);
        WordsFromEnd(abc, text[..e]);
        assert WordsOf(ts)[..1] == [ts[0].w];
      } else {
        TokensFromLocated(abc, text, f, i + 1);
        assert ts[m] == rest[m - 1];
        CutTokenEnd(abc, text, e, k);
        CutStep(abc, text, e, k);
        CutWords(abc, text, f, i + 1, m - 1);
        assert WordsOf(ts)[..m + 1] == [text[k..f]] + WordsOf(rest)[..m];
      }
    } else {
      CutWords(abc, text, k + 1, i, m);
      CutStep(abc, text, e, k);
    }
  }

  lemma CutStep(abc: Alphabet, text: string, e: nat, k: nat)
    requires k < e <= |text|
    requires abc.letter(text[k]) ==> TokenEnd(abc, text[..e], k) == TokenEnd(abc, text, k)
    ensures !abc.letter(text[k]) ==> WordsFrom(abc, text[..e], k) == WordsFrom(abc, text[..e], k + 1)
    ensures abc.letter(text[k]) ==>
              var f := TokenEnd(abc, text, k);
              f <= e && WordsFrom(abc, text[..e], k) == [text[k..f]] + WordsFrom(abc, text[..e], f)
  {
    var cut := text[..e];
    assert cut[k] == text[k];
    if abc.letter(text[k]) {
      var f := TokenEnd(abc, cut, k);
      assert cut[k..f] == text[k..f];
    }
  }

  lemma WordsFromEnd(abc: Alphabet, text: string)
    ensures WordsFrom(abc, text, |text|) == []
  {}

  /** The tokens from the `m`-th on are what reading from its first character gives. */
  lemma {:induction false} TokensTail(abc: Alphabet, text: string, k: nat, i: nat, m: nat)
    requires k <= |text| && m < |TokensFrom(abc, text, k, i)|
    ensures var ts := TokensFrom(abc, text, k, i);
            ts[m].s < |text| && ts[m..] == TokensFrom(abc, text, ts[m].s, i + m)
    decreases |text| - k
  {
    var ts := TokensFrom(abc, text, k, i);
    if abc.letter(text[k]) {
      var rest := TokensFrom(abc, text, TokenEnd(abc, text, k), i + 1);
      if m == 0 {
        assert ts[0..] == ts;
      } else {
        TokensTail(abc, text, TokenEnd(abc, text, k), i + 1, m - 1);
        assert ts[m] == rest[m - 1] && ts[m..] == rest[m - 1..];
      }
    } else {
      TokensTail(abc, text, k + 1, i, m);
    }
  }

  /** Reading the covered characters alone finds the words of the run, no more and no fewer. */
  lemma SurfaceWords(abc: Alphabet, text: string, r: Run)
    requires InTokens(r, Tokenize(abc, text))
    ensures var ts := Tokenize(abc, text);
            LowerAll(abc, WordList(abc, Surface(text, ts, r))) == RunWords(abc, ts, r)
  {
    var ts := Tokenize(abc, text);
    TokenizeOrdered(abc, text);
    TokenOrder(ts, |text|, r.t0, r.t1);
    TokensTail(abc, text, 0, 0, r.t0);
    WindowWords(abc, text, ts, r);
    WordsOfSlice(ts, r.t0, r.t1 + 1);
  }

  lemma WindowWords(abc: Alphabet, text: string, ts: seq<Token>, r: Run)
    requires InTokens(r, ts) && ts[r.t0].s < ts[r.t1].e <= |text|
    requires ts[r.t0..] == TokensFrom(abc, text, ts[r.t0].s, r.t0)
    ensures WordList(abc, text[ts[r.t0].s..ts[r.t1].e]) == WordsOf(ts[r.t0..])[..r.t1 + 1 - r.t0]
  {
    var s, e := ts[r.t0].s, ts[r.t1].e;
    assert ts[r.t0..][r.t1 - r.t0] == ts[r.t1];
    CutWords(abc, text, s, r.t0, r.t1 - r.t0);
    assert text[..e][s..] == text[s..e];
    WordsFromShift(abc, text[..e], text[s..e], 0);
    WordsFromTokens(abc, text[s..e], 0, 0);
  }

  lemma WordsOfSlice(ts: seq<Token>, a: nat, b: nat)
    requires a <= b <= |ts|
    ensures WordsOf(ts[a..])[..b - a] == WordsOf(ts[a..b])
  {}
}
