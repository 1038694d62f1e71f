/** What a snapped set of marks is. */
module Snapping {
  import opened Options
  import opened Tokens
  import opened Coordinates

  /** `runs` are the snaps of the marks from `k` on, one each. */
  ghost predicate EachSnapped(p: Passage, marks: seq<Range>, k: nat, runs: seq<Run>) {
    && k <= |marks| && |runs| == |marks| - k
    && forall t | k <= t < |marks| :: SnapOne(p, marks[t]) == Some(runs[t - k])
  }

  lemma {:induction false} SnapFromSnapped(p: Passage, marks: seq<Range>, k: nat)
    requires k <= |marks| && SnapFrom(p, marks, k).Snapped?
    ensures EachSnapped(p, marks, k, SnapFrom(p, marks, k).runs)
    decreases |marks| - k
  {
    if k < |marks| {
      var rest := SnapFrom(p, marks, k + 1).runs;
      SnapFromSnapped(p, marks, k + 1);
      var runs := SnapFrom(p, marks, k).runs;
      assert runs == [SnapOne(p, marks[k]).value] + rest;
      forall t | k <= t < |marks| ensures SnapOne(p, marks[t]) == Some(runs[t - k]) {
        if t > k { assert runs[t - k] == rest[t - (k + 1)]; }
      }
    }
  }

  lemma SnapFromNext(p: Passage, marks: seq<Range>, k: nat)
    requires k < |marks| && SnapFrom(p, marks, k).Unsnappable?
    ensures if SnapOne(p, marks[k]).None? then SnapFrom(p, marks, k) == Unsnappable(k)
            else SnapFrom(p, marks, k) == SnapFrom(p, marks, k + 1)
  {}

  lemma {:induction false} SnapFromRefused(p: Passage, marks: seq<Range>, k: nat)
    requires k <= |marks| && SnapFrom(p, marks, k).Unsnappable?
    ensures var i := SnapFrom(p, marks, k).index;
            k <= i < |marks| && SnapOne(p, marks[i]).None? && forall t | k <= t < i :: SnapOne(p, marks[t]).Some?
    decreases |marks| - k
  {
    SnapFromNext(p, marks, k);
    if SnapOne(p, marks[k]).Some? { SnapFromRefused(p, marks, k + 1); }
  }

  lemma EachSnappedIs(p: Passage, marks: seq<Range>, runs: seq<Run>)
    requires EachSnapped(p, marks, 0, runs)
    ensures SnapFrom(p, marks, 0) == Snapped(runs)
  {
    forall t | 0 <= t < |marks| ensures SnapOne(p, marks[t]) == Some(runs[t]) { assert runs[t - 0] == runs[t]; }
    if SnapFrom(p, marks, 0).Unsnappable? {
      SnapFromRefused(p, marks, 0);
    } else {
      var found := SnapFrom(p, marks, 0).runs;
      SnapFromSnapped(p, marks, 0);
      forall t | 0 <= t < |marks| ensures found[t] == runs[t] { assert found[t - 0] == found[t]; }
    }
  }

  /** One snapped mark: a proper run in one paragraph, of the touched tokens that share the
      first one's paragraph. */
  lemma SnapOneIs(p: Passage, mark: Range)
    requires ValidPassage(p)
    ensures SnapOne(p, mark).None? <==>
              mark.end <= mark.start || forall k | 0 <= k < |p.ts| :: !Touches(p.ts[k], mark)
    ensures SnapOne(p, mark).Some? ==>
              var r := SnapOne(p, mark).value;
              && OneParagraph(p.para, r) && InTokens(r, p.ts)
              && forall k | 0 <= k < |p.ts| ::
                   r.t0 <= k <= r.t1 <==> Touches(p.ts[k], mark) && p.para[k] == p.para[r.t0]
  {
    ToRunTouches(p.ts, p.length, mark);
    if ToRun(p.ts, mark).Some? {
      var q := ToRun(p.ts, mark).value;
      ClampIs(p.para, q.t0, q.t1);
    }
  }

  /** The clamped tokens of a mark. */
  ghost predicate Clamped(p: Passage, mark: Range, x: nat, y: nat) {
    SnapOne(p, mark).Some? && Holds(SnapOne(p, mark).value, x, y)
  }

  lemma {:induction false} SomeClamped(p: Passage, marks: seq<Range>, runs: seq<Run>, x: nat, y: nat)
    requires EachSnapped(p, marks, 0, runs)
    ensures SomeHolds(runs, x, y) <==> exists t | 0 <= t < |marks| :: Clamped(p, marks[t], x, y)
  {
    if SomeHolds(runs, x, y) {
      var t :| 0 <= t < |runs| && Holds(runs[t], x, y);
      assert Clamped(p, marks[t], x, y);
    }
    if exists t | 0 <= t < |marks| :: Clamped(p, marks[t], x, y) {
      var t :| 0 <= t < |marks| && Clamped(p, marks[t], x, y);
      assert Holds(runs[t], x, y);
    }
  }

  /** Some run holds `x` and the token after it. */
  predicate Linked(runs: seq<Run>, x: nat) { SomeHolds(runs, x, x + 1) }

  /** A merged run that starts in a paragraph stays in it: every step inside it is a step inside
      some mark. */
  lemma {:induction false} StepsInParagraph(p: Passage, runs: seq<Run>, r: Run, t: nat)
    requires ValidPassage(p) && (forall k | 0 <= k < |runs| :: OneParagraph(p.para, runs[k]))
    requires r.t0 <= t <= r.t1 && r.t1 < |p.para|
    requires forall x: nat | r.t0 <= x < r.t1 :: Linked(runs, x)
    ensures p.para[t] == p.para[r.t0]
    decreases t
  {
    if t > r.t0 {
      var x: nat := t - 1;
      StepsInParagraph(p, runs, r, x);
      assert Linked(runs, x);
      var k :| 0 <= k < |runs| && Holds(runs[k], x, x + 1);
      assert OneParagraph(p.para, runs[k]);
    }
  }

  lemma MergedInParagraph(p: Passage, runs: seq<Run>, k: nat)
    requires ValidPassage(p) && k < |MergeRuns(runs)|
    requires forall t | 0 <= t < |runs| :: OneParagraph(p.para, runs[t])
    ensures OneParagraph(p.para, MergeRuns(runs)[k])
  {
    MergeRunsIs(runs);
    var r := MergeRuns(runs)[k];
    assert Holds(r, r.t1, r.t1) && SomeHolds(MergeRuns(runs), r.t1, r.t1);
    var l :| 0 <= l < |runs| && Holds(runs[l], r.t1, r.t1);
    assert OneParagraph(p.para, runs[l]);
    forall x: nat | r.t0 <= x < r.t1 ensures Linked(runs, x) {
      assert Holds(r, x, x + 1) && SomeHolds(MergeRuns(runs), x, x + 1);
    }
    forall t | r.t0 <= t <= r.t1 ensures p.para[t] == p.para[r.t0] { StepsInParagraph(p, runs, r, t); }
  }

  lemma SnappedInParagraphs(p: Passage, marks: seq<Range>, raw: seq<Run>)
    requires ValidPassage(p) && EachSnapped(p, marks, 0, raw)
    ensures forall t | 0 <= t < |raw| :: OneParagraph(p.para, raw[t])
    ensures forall t | 0 <= t < |marks| :: SnapOne(p, marks[t]).Some?
  {
    forall t | 0 <= t < |raw| ensures OneParagraph(p.para, raw[t]) && SnapOne(p, marks[t]).Some? {
      assert SnapOne(p, marks[t]) == Some(raw[t - 0]);
      SnapOneIs(p, marks[t]);
    }
  }

  /** What a set of snapped runs is to the marks it was made from. */
  ghost predicate SnapOf(p: Passage, marks: seq<Range>, runs: seq<Run>) {
    && (forall t | 0 <= t < |marks| :: SnapOne(p, marks[t]).Some?)
    && Disjoint(runs)
    && (forall k | 0 <= k < |runs| :: OneParagraph(p.para, runs[k]))
    && (forall x: nat, y: nat | x <= y <= x + 1 ::
          SomeHolds(runs, x, y) <==> exists t | 0 <= t < |marks| :: Clamped(p, marks[t], x, y))
  }

  lemma MergedIsSnap(p: Passage, marks: seq<Range>, raw: seq<Run>)
    requires ValidPassage(p) && EachSnapped(p, marks, 0, raw)
    ensures SnapOf(p, marks, MergeRuns(raw))
  {
    var runs := MergeRuns(raw);
    SnappedInParagraphs(p, marks, raw);
    MergeRunsIs(raw);
    forall k | 0 <= k < |runs| ensures OneParagraph(p.para, runs[k]) { MergedInParagraph(p, raw, k); }
    forall x: nat, y: nat | x <= y <= x + 1
      ensures SomeHolds(runs, x, y) <==> exists t | 0 <= t < |marks| :: Clamped(p, marks[t], x, y)
    {
      SomeClamped(p, marks, raw, x, y);
    }
  }

  /** Snapping a student's marks.  It refuses at the first mark that covers no token.  Otherwise
      the runs are in text order, share no token, lie each inside one paragraph, and two tokens —
      one, or two neighbours — lie in one run exactly when one clamped mark holds both. */
  lemma SnapMarksIs(p: Passage, marks: seq<Range>)
    requires ValidPassage(p)
    ensures match SnapMarks(p, marks)
            case Unsnappable(i) =>
              i < |marks| && SnapOne(p, marks[i]).None? && forall t | 0 <= t < i :: SnapOne(p, marks[t]).Some?
            case Snapped(runs) => SnapOf(p, marks, runs)
  {
    if SnapFrom(p, marks, 0).Snapped? {
      SnapFromSnapped(p, marks, 0);
      MergedIsSnap(p, marks, SnapFrom(p, marks, 0).runs);
    } else {
      SnapFromRefused(p, marks, 0);
    }
  }

  function Ranges(p: Passage, runs: seq<Run>): seq<Range> {
    seq(|runs|, k requires 0 <= k < |runs| => ToRange(p.ts, runs[k]))
  }

  /** A run inside one paragraph is its own snap. */
  lemma SnapRun(p: Passage, r: Run)
    requires ValidPassage(p) && OneParagraph(p.para, r)
    ensures SnapOne(p, ToRange(p.ts, r)) == Some(r)
  {
    RunRoundTrip(p.ts, p.length, r);
    ClampIs(p.para, r.t0, r.t1);
    var c := Clamp(p.para, r.t0, r.t1);
    assert c.t0 <= r.t0 <= c.t1 && c.t0 <= r.t1 <= c.t1;
    assert c.t0 <= c.t0 <= c.t1 && c.t0 <= c.t1 <= c.t1;
  }

  /** Snapping is idempotent: the character ranges of snapped runs snap to the same runs. */
  lemma SnapTwice(p: Passage, marks: seq<Range>)
    requires ValidPassage(p) && SnapMarks(p, marks).Snapped?
    ensures SnapMarks(p, Ranges(p, SnapMarks(p, marks).runs)) == SnapMarks(p, marks)
  {
    var runs := SnapMarks(p, marks).runs;
    var again := Ranges(p, runs);
    SnapMarksIs(p, marks);
    forall t | 0 <= t < |again| ensures SnapOne(p, again[t]) == Some(runs[t - 0]) { SnapRun(p, runs[t]); }
    EachSnappedIs(p, again, runs);
    MergeRunsIs(runs);
  }

  /** So it is for the tokens and paragraphs of any text: marks are refused at the first one over no
      word, or snapped, and what was snapped snaps to itself. */
  lemma SnapText(abc: Alphabet, text: string, ends: seq<nat>, marks: seq<Range>)
    ensures var p := PassageOf(abc, text, ends);
            match SnapMarks(p, marks)
            case Unsnappable(i) =>
              i < |marks| && SnapOne(p, marks[i]).None? && forall t | 0 <= t < i :: SnapOne(p, marks[t]).Some?
            case Snapped(runs) => SnapOf(p, marks, runs) && SnapMarks(p, Ranges(p, runs)) == Snapped(runs)
  {
    var p := PassageOf(abc, text, ends);
    PassageIsValid(abc, text, ends);
    SnapMarksIs(p, marks);
    if SnapMarks(p, marks).Snapped? { SnapTwice(p, marks); }
  }
}
