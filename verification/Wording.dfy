/** When two texts count as the same wording, apart from how they are normalised. */
module Wording {
  import opened Text
  import opened Spans
  import opened Judging
  import Typo

  // ----- Punctuation -----

  predicate IsMark(c: char) { c in "«»\"'“”.,;:!?()[]-–—" }

  /** Every punctuation mark read as a blank. */
  function Blanked(s: string): (t: string)
    ensures |t| == |s|
  {
    seq(|s|, k requires 0 <= k < |s| => if IsMark(s[k]) then ' ' else s[k])
  }

  lemma {:induction false} BlankIs(s: string)
    ensures BlankPunct(s) == Blanked(s)
  {
    if s != "" {
      BlankIs(s[1..]);
      assert Blanked(s) == [if IsMark(s[0]) then ' ' else s[0]] + Blanked(s[1..]);
    }
  }

  // ----- The same wording -----

  /** The words with single spaces between them, lower-cased where case is ignored. */
  function Shown(text: string, check: Check, lower: string -> string): string {
    if check.caseInsensitive then lower(Join(Fields(text))) else Join(Fields(text))
  }

  /** Two texts show the same, or break into the same words where punctuation is ignored. */
  predicate SameWording(a: string, b: string, check: Check, lower: string -> string) {
    if check.ignorePunct then Fields(Blanked(Shown(a, check, lower))) == Fields(Blanked(Shown(b, check, lower)))
    else Shown(a, check, lower) == Shown(b, check, lower)
  }

  /** Texts are normalised alike exactly when they are the same wording. */
  lemma NormIs(a: string, b: string, check: Check, lower: string -> string)
    ensures Norm(a, check, lower) == Norm(b, check, lower) <==> SameWording(a, b, check, lower)
  {
    CollapseIsJoin(a);
    CollapseIsJoin(b);
    if check.ignorePunct {
      var x, y := Shown(a, check, lower), Shown(b, check, lower);
      BlankIs(x);
      BlankIs(y);
      CollapseCanonical(Blanked(x), Blanked(y));
    }
  }

  // ----- The same wording, word by word -----

  function LowerEach(ws: seq<string>, lower: string -> string): (out: seq<string>)
    ensures |out| == |ws|
  {
    seq(|ws|, k requires 0 <= k < |ws| => lower(ws[k]))
  }

  /** Lower-casing goes word by word. */
  ghost predicate WordWise(lower: string -> string) {
    forall ws: seq<string> | AllClean(ws) :: lower(Join(ws)) == Join(LowerEach(ws, lower)) && AllClean(LowerEach(ws, lower))
  }

  function BlankedEach(ws: seq<string>): (out: seq<string>)
    ensures |out| == |ws|
  {
    seq(|ws|, k requires 0 <= k < |ws| => Blanked(ws[k]))
  }

  /** The words of a text as they are compared: lower-cased where case is ignored, broken up at their
      punctuation where punctuation is ignored. */
  function AsRead(text: string, check: Check, lower: string -> string): seq<string> {
    var ws := if check.caseInsensitive then LowerEach(Fields(text), lower) else Fields(text);
    if check.ignorePunct then FieldsAll(BlankedEach(ws)) else ws
  }

  lemma {:induction false} BlankedJoin(ws: seq<string>)
    ensures Fields(Blanked(Join(ws))) == FieldsAll(BlankedEach(ws))
  {
    if ws != [] {
      assert BlankedEach(ws)[1..] == BlankedEach(ws[1..]);
      if |ws| == 1 {
        assert FieldsAll(BlankedEach(ws[1..])) == [];
      } else {
        BlankedJoin(ws[1..]);
        assert Blanked(Join(ws)) == Blanked(ws[0]) + " " + Blanked(Join(ws[1..]));
        FieldsGap(Blanked(ws[0]), ' ', Blanked(Join(ws[1..])));
      }
    }
  }

  lemma ShownWords(text: string, check: Check, lower: string -> string)
    requires check.caseInsensitive ==> WordWise(lower)
    ensures var ws := if check.caseInsensitive then LowerEach(Fields(text), lower) else Fields(text);
            Shown(text, check, lower) == Join(ws) && AllClean(ws)
  {}

  /** Two texts are the same wording exactly when they are read as the same words. */
  lemma SameWordingIs(a: string, b: string, check: Check, lower: string -> string)
    requires check.caseInsensitive ==> WordWise(lower)
    ensures SameWording(a, b, check, lower) <==> AsRead(a, check, lower) == AsRead(b, check, lower)
  {
    var v := if check.caseInsensitive then LowerEach(Fields(a), lower) else Fields(a);
    var w := if check.caseInsensitive then LowerEach(Fields(b), lower) else Fields(b);
    ShownWords(a, check, lower);
    ShownWords(b, check, lower);
    if check.ignorePunct {
      BlankedJoin(v);
      BlankedJoin(w);
    } else {
      JoinRoundTrip(v);
      JoinRoundTrip(w);
    }
  }

  // ----- Tolerance between two words -----

  /** Without tolerance two words are equal, up to case where case is ignored; with it they are equal
      up to case, or one letter apart when both are four letters long or longer. */
  lemma WordEqIs(a: string, b: string, check: Check, lower: string -> string)
    ensures !check.typo && !check.caseInsensitive ==> (WordEq(a, b, check, lower) <==> a == b)
    ensures !check.typo && check.caseInsensitive ==> (WordEq(a, b, check, lower) <==> lower(a) == lower(b))
    ensures check.typo ==>
              (WordEq(a, b, check, lower) <==>
               lower(a) == lower(b) || (|lower(a)| >= 4 && |lower(b)| >= 4 && Typo.OneEdit(lower(a), lower(b))))
  {}
}
