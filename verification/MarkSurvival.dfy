/** What re-anchoring and putting back keep: no mark is lost, and a mark that survives stands on
    its own words. */
module MarkSurvival {
  import opened Sequences
  import opened Options
  import opened Text
  import opened Tokens
  import opened Sorting
  import opened Coordinates
  import opened Surfaces
  import opened MarkEdits
  import opened HighlightReanchor

  // ----- One mark -----

  lemma RunWordsClean(abc: Alphabet, text: string, r: Run)
    requires Lawful(abc)
    ensures AllClean(RunWords(abc, Tokenize(abc, text), r))
  {
    var ts := Tokenize(abc, text);
    TokensAreWordly(abc, text);
    forall w | w in RunWords(abc, ts, r) ensures Clean(w) {
      var k :| 0 <= k < |RunWords(abc, ts, r)| && RunWords(abc, ts, r)[k] == w;
      assert Wordly(abc, ts[r.t0 + k].w);
    }
  }

  /** Comparing the joined words compares the words. */
  lemma JoinedAlike(a: seq<string>, b: seq<string>)
    requires AllClean(a) && AllClean(b)
    ensures Join(a) == Join(b) <==> a == b
  {
    JoinRoundTrip(a);
    JoinRoundTrip(b);
  }

  ghost predicate IsMove(m: Move) { m == MoveOf(m.abc, m.oldText, m.newText) }

  /** `to` is `span`, moved onto a run of the new text with the same lower-cased words. */
  ghost predicate SameMark(m: Move, span: Span, to: Span) {
    && to.id == span.id && to.why == span.why
    && OnTokens(m.newTs, RangeOf(to))
    && ToRun(m.oldTs, RangeOf(span)).Some? && ToRun(m.newTs, RangeOf(to)).Some?
    && RunWords(m.abc, m.newTs, ToRun(m.newTs, RangeOf(to)).value)
       == RunWords(m.abc, m.oldTs, ToRun(m.oldTs, RangeOf(span)).value)
  }

  lemma ShiftedSame(m: Move, span: Span)
    requires Lawful(m.abc) && IsMove(m) && Shifted(m, span).Some?
    ensures SameMark(m, span, Shifted(m, span).value)
    ensures Shifted(m, span).value == MovedTo(span, ShiftedStart(m.edit, span))
  {
    var to := Shifted(m, span).value;
    var a, b := ToRun(m.oldTs, RangeOf(span)).value, ToRun(m.newTs, RangeOf(to)).value;
    RunWordsClean(m.abc, m.oldText, a);
    RunWordsClean(m.abc, m.newText, b);
    JoinedAlike(RunWords(m.abc, m.oldTs, a), RunWords(m.abc, m.newTs, b));
  }

  lemma LandedSame(m: Move, span: Span)
    requires IsMove(m)
    ensures Land(m, span).Some? ==> SameMark(m, span, Land(m, span).value)
    ensures Land(m, span).None? <==>
              ToRun(m.oldTs, RangeOf(span)).None?
              || !Occurs(m.abc, m.newTs, RunWords(m.abc, m.oldTs, ToRun(m.oldTs, RangeOf(span)).value))
  {
    TokenizeOrdered(m.abc, m.oldText);
    ToRunTouches(m.oldTs, |m.oldText|, RangeOf(span));
    var run := ToRun(m.oldTs, RangeOf(span));
    if run.Some? {
      var words := RunWords(m.abc, m.oldTs, run.value);
      RunsOfIs(m.abc, m.newTs, words);
      if Land(m, span).Some? {
        var runs := RunsOf(m.abc, m.newTs, words);
        var ordinal := OrdinalFrom(RunsOf(m.abc, m.oldTs, words), run.value.t0, 0);
        var hit := runs[if ordinal < |runs| then ordinal else |runs| - 1];
        assert hit in runs;
        OnRun(m.abc, m.newText, hit, Land(m, span).value);
      }
    }
  }

  lemma {:induction false} OrdinalHits(runs: seq<Run>, t0: nat, k: nat)
    requires k <= |runs| && exists j | k <= j < |runs| :: runs[j].t0 == t0
    ensures OrdinalFrom(runs, t0, k) < |runs| && runs[OrdinalFrom(runs, t0, k)].t0 == t0
    decreases |runs| - k
  {
    if runs[k].t0 != t0 { OrdinalHits(runs, t0, k + 1); }
  }

  function Least(a: nat, b: nat): nat { if a <= b then a else b }

  /** The second pass puts a mark on the same occurrence of its words as before, counted from the
      start of the text, or on the last one there is. */
  lemma LandsOnOccurrence(m: Move, span: Span)
    requires IsMove(m) && Land(m, span).Some?
    ensures SameMark(m, span, Land(m, span).value)
    ensures var r, to := ToRun(m.oldTs, RangeOf(span)).value, ToRun(m.newTs, RangeOf(Land(m, span).value)).value;
            var words := RunWords(m.abc, m.oldTs, r);
            && TimesBefore(m.abc, m.newTs, words, |m.newTs|) > 0
            && TimesBefore(m.abc, m.newTs, words, to.t0)
               == Least(TimesBefore(m.abc, m.oldTs, words, r.t0), TimesBefore(m.abc, m.newTs, words, |m.newTs|) - 1)
  {
    LandedSame(m, span);
    var r := ToRun(m.oldTs, RangeOf(span)).value;
    LandedOn(m, span, r);
    PickedRun(m.abc, m.oldTs, m.newTs, RunWords(m.abc, m.oldTs, r), r);
  }

  /** Of the listed runs, the one with the wanted number, or the last. */
  function Picked(abc: Alphabet, oldTs: seq<Token>, newTs: seq<Token>, words: seq<string>, r: Run): Run
    requires RunsOf(abc, newTs, words) != []
  {
    var ordinal, runs := OrdinalFrom(RunsOf(abc, oldTs, words), r.t0, 0), RunsOf(abc, newTs, words);
    runs[if ordinal < |runs| then ordinal else |runs| - 1]
  }

  lemma LandedOn(m: Move, span: Span, r: Run)
    requires IsMove(m) && Land(m, span).Some? && ToRun(m.oldTs, RangeOf(span)) == Some(r)
    ensures var words := RunWords(m.abc, m.oldTs, r);
            && Is(m.abc, m.oldTs, words, r) && RunsOf(m.abc, m.newTs, words) != []
            && ToRun(m.newTs, RangeOf(Land(m, span).value)) == Some(Picked(m.abc, m.oldTs, m.newTs, words, r))
  {
    TokenizeOrdered(m.abc, m.oldText);
    ToRunTouches(m.oldTs, |m.oldText|, RangeOf(span));
    var words := RunWords(m.abc, m.oldTs, r);
    var hit := Picked(m.abc, m.oldTs, m.newTs, words, r);
    RunsOfIs(m.abc, m.newTs, words);
    assert hit in RunsOf(m.abc, m.newTs, words);
    OnRun(m.abc, m.newText, hit, Land(m, span).value);
  }

  lemma PickedRun(abc: Alphabet, oldTs: seq<Token>, newTs: seq<Token>, words: seq<string>, r: Run)
    requires words != [] && Is(abc, oldTs, words, r) && RunsOf(abc, newTs, words) != []
    ensures var total := TimesBefore(abc, newTs, words, |newTs|);
            && total > 0
            && TimesBefore(abc, newTs, words, Picked(abc, oldTs, newTs, words, r).t0)
               == Least(TimesBefore(abc, oldTs, words, r.t0), total - 1)
  {
    RunsOfIs(abc, oldTs, words);
    OrdinalIsCount(abc, oldTs, words, r);
    var ordinal, runs := OrdinalFrom(RunsOf(abc, oldTs, words), r.t0, 0), RunsOf(abc, newTs, words);
    RunsInOrder(abc, newTs, words, 0, if ordinal < |runs| then ordinal else |runs| - 1);
    TimesInAll(abc, newTs, words, 0);
  }

  lemma OrdinalIsCount(abc: Alphabet, ts: seq<Token>, words: seq<string>, r: Run)
    requires words != [] && r in RunsOf(abc, ts, words)
    ensures OrdinalFrom(RunsOf(abc, ts, words), r.t0, 0) == TimesBefore(abc, ts, words, r.t0)
  {
    var runs := RunsOf(abc, ts, words);
    OrdinalHits(runs, r.t0, 0);
    RunsInOrder(abc, ts, words, 0, OrdinalFrom(runs, r.t0, 0));
  }

  /** A span over the characters of a run sits on token edges and touches that run. */
  lemma OnRun(abc: Alphabet, text: string, run: Run, s: Span)
    requires InTokens(run, Tokenize(abc, text)) && RangeOf(s) == ToRange(Tokenize(abc, text), run)
    ensures OnTokens(Tokenize(abc, text), RangeOf(s)) && ToRun(Tokenize(abc, text), RangeOf(s)) == Some(run)
  {
    var ts := Tokenize(abc, text);
    TokenizeOrdered(abc, text);
    RunRoundTrip(ts, |text|, run);
    assert ts[run.t0].s == s.start && ts[run.t1].e == s.end;
  }

  /** A mark that finds a place keeps its id, its reason and its words, on token edges; it becomes
      an orphan exactly when it covered no word, or its words stand nowhere in the new text. */
  lemma PlacedSame(m: Move, span: Span)
    requires Lawful(m.abc) && IsMove(m)
    ensures Placed(m, span).Some? ==> SameMark(m, span, Placed(m, span).value)
    ensures Placed(m, span).None? <==>
              ToRun(m.oldTs, RangeOf(span)).None?
              || !Occurs(m.abc, m.newTs, RunWords(m.abc, m.oldTs, ToRun(m.oldTs, RangeOf(span)).value))
  {
    LandedSame(m, span);
    if Shifted(m, span).Some? {
      var to := Shifted(m, span).value;
      ShiftedSame(m, span);
      TokenizeOrdered(m.abc, m.newText);
      ToRunTouches(m.newTs, |m.newText|, RangeOf(to));
      assert Is(m.abc, m.newTs, RunWords(m.abc, m.oldTs, ToRun(m.oldTs, RangeOf(span)).value), ToRun(m.newTs, RangeOf(to)).value);
    }
  }

  // ----- The edited stretch is the smallest one -----

  lemma {:induction false} PrefixStops(a: string, b: string, k: nat)
    requires k <= |a| && k <= |b|
    ensures var n := CommonPrefix(a, b, k); n == |a| || n == |b| || a[n] != b[n]
    decreases |a| - k
  {
    if k < |a| && k < |b| && a[k] == b[k] { PrefixStops(a, b, k + 1); }
  }

  lemma {:induction false} SuffixStops(a: string, b: string, limit: nat, k: nat)
    requires k <= limit <= |a| && limit <= |b|
    ensures var n := CommonSuffix(a, b, limit, k); n == limit || !SameFromEnd(a, b, n)
    decreases limit - k
  {
    if k < limit && SameFromEnd(a, b, k) { SuffixStops(a, b, limit, k + 1); }
  }

  /** Neither end of the edited stretch can be moved inwards: in front of it and behind it the texts
      agree as far as they can. */
  lemma RegionIsSmallest(a: string, b: string)
    ensures var e := RegionOf(a, b);
            var to := e.oldTo + e.delta;
            && e.from <= e.oldTo <= |a| && e.from <= to <= |b| && |a| - e.oldTo == |b| - to
            && a[..e.from] == b[..e.from] && a[e.oldTo..] == b[to..]
            && (e.from == |a| || e.from == |b| || a[e.from] != b[e.from])
            && (e.oldTo == e.from || to == e.from || a[e.oldTo - 1] != b[to - 1])
  {
    CommonEnds(a, b);
    PrefixStops(a, b, 0);
    var from, max := CommonPrefix(a, b, 0), if |a| <= |b| then |a| else |b|;
    SuffixStops(a, b, max - from, 0);
  }

  /** The stretch found is the part that was replaced. */
  lemma RegionIs(u: string, s: string, t: string, v: string)
    requires Replaces(u, s, t, v)
    ensures RegionOf(u + s + v, u + t + v) == Region(|u|, |u| + |s|, |t| - |s|)
  {
    var a, b := u + s + v, u + t + v;
    PrefixStops(a, b, 0);
    assert a == u + (s + v) && b == u + (t + v);
    FromIs(u, s + v, t + v, a, b, CommonPrefix(a, b, 0));
    var limit := (if |a| <= |b| then |a| else |b|) - |u|;
    SuffixStops(a, b, limit, 0);
    BehindIs(u, s, t, v, a, b, limit, CommonSuffix(a, b, limit, 0));
  }

  // ----- A mark outside the edit -----

  lemma CommonEnds(a: string, b: string)
    ensures var e := RegionOf(a, b);
            && 0 <= e.oldTo + e.delta && e.from <= e.oldTo + e.delta
            && a[..e.from] == b[..e.from] && a[e.oldTo..] == b[e.oldTo + e.delta..]
  {
    var e := RegionOf(a, b);
    var n := |a| - e.oldTo;
    var x, y := a[e.oldTo..], b[e.oldTo + e.delta..];
    forall k | 0 <= k < |x| ensures x[k] == y[k] { assert SameFromEnd(a, b, n - 1 - k); }
  }

  /** Outside the edit, the characters under a mark move with it unchanged. */
  lemma ShiftKeepsCharacters(m: Move, span: Span)
    requires IsMove(m) && 0 <= span.start <= span.end <= |m.oldText| && Outside(m.edit, span)
    ensures var to := MovedTo(span, ShiftedStart(m.edit, span));
            0 <= to.start <= to.end <= |m.newText| && m.newText[to.start..to.end] == m.oldText[span.start..span.end]
  {
    var e := m.edit;
    CommonEnds(m.oldText, m.newText);
    if span.end <= e.from {
      SameBefore(m.oldText, m.newText, e.from, span.start, span.end);
    } else {
      SameBehind(m.oldText, m.newText, e.oldTo, e.oldTo + e.delta, span.start - e.oldTo, span.end - e.oldTo);
    }
  }

  lemma SameBefore(a: string, b: string, n: nat, i: nat, j: nat)
    requires i <= j <= n <= |a| && n <= |b| && a[..n] == b[..n]
    ensures a[i..j] == b[i..j]
  {
    assert a[..n][i..j] == a[i..j] && b[..n][i..j] == b[i..j];
  }

  lemma SameBehind(a: string, b: string, n: nat, k: nat, i: nat, j: nat)
    requires n <= |a| && k <= |b| && a[n..] == b[k..] && i <= j && n + j <= |a|
    ensures k + j <= |b| && a[n + i..n + j] == b[k + i..k + j]
  {
    assert |a[n..]| == |b[k..]|;
    assert a[n..][i..j] == a[n + i..n + j] && b[k..][i..j] == b[k + i..k + j];
  }

  /** On token edges before and after, the same characters are the same words: a mark outside the
      edit follows the text around it exactly when no letter was glued onto its edge. */
  lemma EdgesDecide(m: Move, span: Span)
    requires Lawful(m.abc) && IsMove(m) && OnTokens(m.oldTs, RangeOf(span)) && Outside(m.edit, span)
    ensures var to := MovedTo(span, ShiftedStart(m.edit, span));
            Placed(m, span) == Some(to) <==> OnEdges(m.newTs, to.start, to.end)
  {
    var to := MovedTo(span, ShiftedStart(m.edit, span));
    PlacedSame(m, span);
    if OnEdges(m.newTs, to.start, to.end) {
      SpanInText(m.abc, m.oldText, RangeOf(span));
      ShiftKeepsCharacters(m, span);
      SameCharactersSameWords(m.abc, m.oldText, m.newText, RangeOf(span), RangeOf(to));
      assert ShiftTo(m, span, to.start) == Some(to);
    }
  }

  function Along(span: Span, n: int): Span { span.(start := span.start + n, end := span.end + n) }

  /** Text put in moves a mark behind it by exactly its length, and leaves one in front where it is, as
      long as the mark is still on token edges there. */
  lemma InsertionMoves(abc: Alphabet, u: string, t: string, v: string, span: Span)
    requires Lawful(abc) && t != "" && v != "" && t[0] != v[0]
    requires OnTokens(Tokenize(abc, u + v), RangeOf(span)) && (span.end <= |u| || span.start >= |u|)
    ensures var n := if span.end <= |u| then 0 else |t|;
            OnEdges(Tokenize(abc, u + t + v), span.start + n, span.end + n)
            <==> Placed(MoveOf(abc, u + v, u + t + v), span) == Some(Along(span, n))
  {
    RegionInserted(u, t, v);
    MovesBy(MoveOf(abc, u + v, u + t + v), span, if span.end <= |u| then 0 else |t|);
  }

  lemma MovesBy(m: Move, span: Span, n: int)
    requires Lawful(m.abc) && IsMove(m) && OnTokens(m.oldTs, RangeOf(span)) && Outside(m.edit, span)
    requires ShiftedStart(m.edit, span) == span.start + n
    ensures OnEdges(m.newTs, span.start + n, span.end + n) <==> Placed(m, span) == Some(Along(span, n))
  {
    EdgesDecide(m, span);
    AlongIs(span, span.start + n, n);
  }

  lemma AlongIs(span: Span, start: int, n: int)
    requires start == span.start + n
    ensures MovedTo(span, start) == Along(span, n)
  {}

  lemma RegionInserted(u: string, t: string, v: string)
    requires t != "" && v != "" && t[0] != v[0]
    ensures RegionOf(u + v, u + t + v) == Region(|u|, |u|, |t|)
  {
    assert u + "" + v == u + v && "" + v == v;
    RegionIs(u, "", t, v);
  }

  lemma SpanInText(abc: Alphabet, text: string, range: Range)
    requires OnTokens(Tokenize(abc, text), range)
    ensures 0 <= range.start < range.end <= |text|
  {
    TokenizeOrdered(abc, text);
  }

  lemma SameCharactersSameWords(abc: Alphabet, a: string, b: string, x: Range, y: Range)
    requires OnTokens(Tokenize(abc, a), x) && OnTokens(Tokenize(abc, b), y)
    requires 0 <= x.start < x.end <= |a| && 0 <= y.start < y.end <= |b| && a[x.start..x.end] == b[y.start..y.end]
    ensures var p, q := ToRun(Tokenize(abc, a), x), ToRun(Tokenize(abc, b), y);
            p.Some? && q.Some? && RunWords(abc, Tokenize(abc, a), p.value) == RunWords(abc, Tokenize(abc, b), q.value)
  {
    TokenizeOrdered(abc, a);
    TokenizeOrdered(abc, b);
    OnTokensRoundTrip(Tokenize(abc, a), |a|, x);
    OnTokensRoundTrip(Tokenize(abc, b), |b|, y);
    SurfaceWords(abc, a, ToRun(Tokenize(abc, a), x).value);
    SurfaceWords(abc, b, ToRun(Tokenize(abc, b), y).value);
  }

  // ----- An orphan -----

  /** An offset as a JavaScript slice reads it: from the end when negative, and never outside. */
  predicate Offset(s: string, at: int, k: nat) {
    && k <= |s|
    && (0 <= at <= |s| ==> k == at) && (at > |s| ==> k == |s|)
    && (-|s| <= at < 0 ==> k == |s| + at) && (at < -|s| ==> k == 0)
  }

  /** A slice holds the characters between its two offsets, and none when they cross. */
  lemma SliceIs(s: string, start: int, end: int, i: nat, j: nat)
    requires Offset(s, start, i) && Offset(s, end, j)
    ensures Slice(s, start, end) == if i <= j then s[i..j] else ""
  {}

  /** An orphan shows the words its mark covered, as they stood in the old text, or, if it covered none,
      its trimmed characters. */
  lemma OrphanShows(m: Move, qid: string, span: Span)
    requires IsMove(m)
    ensures var o, run := OrphanOf(m, qid, span), ToRun(m.oldTs, RangeOf(span));
            && o.id == span.id && o.qid == qid && o.why == span.why
            && (run.None? ==> o.surface == Trim(Slice(m.oldText, span.start, span.end)))
            && (run.Some? ==>
                  var from, to := m.oldTs[run.value.t0].s, m.oldTs[run.value.t1].e;
                  from <= to <= |m.oldText| && o.surface == m.oldText[from..to])
  {
    TokenizeOrdered(m.abc, m.oldText);
    ToRunTouches(m.oldTs, |m.oldText|, RangeOf(span));
  }

  /** An orphan made by an edit can be put back, in any later text, exactly when the words its
      mark covered stand there; and it comes back on the first place where they do. */
  lemma OrphanReturns(m: Move, qid: string, span: Span, later: string)
    requires IsMove(m) && ToRun(m.oldTs, RangeOf(span)).Some?
    ensures var o, ts := OrphanOf(m, qid, span), Tokenize(m.abc, later);
            var words := RunWords(m.abc, m.oldTs, ToRun(m.oldTs, RangeOf(span)).value);
            && (CanPutBack(m.abc, later, o) <==> Occurs(m.abc, ts, words))
            && (CanPutBack(m.abc, later, o) ==>
                  var back := PutBackSpan(m.abc, later, o);
                  && back.Some? && back.value.id == span.id && back.value.why == span.why
                  && OnTokens(ts, RangeOf(back.value))
                  && ToRun(ts, RangeOf(back.value)).Some?
                  && Is(m.abc, ts, words, ToRun(ts, RangeOf(back.value)).value)
                  && TimesBefore(m.abc, ts, words, ToRun(ts, RangeOf(back.value)).value.t0) == 0)
  {
    var o, ts := OrphanOf(m, qid, span), Tokenize(m.abc, later);
    var r := ToRun(m.oldTs, RangeOf(span)).value;
    TokenizeOrdered(m.abc, m.oldText);
    ToRunTouches(m.oldTs, |m.oldText|, RangeOf(span));
    SurfaceWords(m.abc, m.oldText, r);
    var words := RunWords(m.abc, m.oldTs, r);
    RunsOfIs(m.abc, ts, words);
    if CanPutBack(m.abc, later, o) {
      var run := RunsOf(m.abc, ts, words)[0];
      assert run in RunsOf(m.abc, ts, words);
      RunsInOrder(m.abc, ts, words, 0, 0);
      OnRun(m.abc, later, run, PutBackSpan(m.abc, later, o).value);
    }
  }

  // ----- No mark is lost -----

  datatype Mark = Mark(id: string, qid: string, why: string)

  function SpanMark(qid: string, s: Span): Mark { Mark(s.id, qid, s.why) }

  function OrphanMark(o: Orphan): Mark { Mark(o.id, o.qid, o.why) }

  /** How often the mark is drawn in a question. */
  function InSpans(x: Mark, qid: string, spans: seq<Span>): nat {
    if spans == [] then 0
    else InSpans(x, qid, spans[..|spans| - 1]) + Once(SpanMark(qid, spans[|spans| - 1]) == x)
  }

  function InQuestions(x: Mark, qs: seq<Question>): nat {
    if qs == [] then 0
    else InQuestions(x, qs[..|qs| - 1]) + InSpans(x, qs[|qs| - 1].id, qs[|qs| - 1].spans)
  }

  function InOrphans(x: Mark, orphans: seq<Orphan>): nat {
    if orphans == [] then 0
    else InOrphans(x, orphans[..|orphans| - 1]) + Once(OrphanMark(orphans[|orphans| - 1]) == x)
  }

  /** How often the document holds a mark with this id, question and reason, drawn or waiting. */
  function Count(x: Mark, c: Content): nat { InQuestions(x, c.questions) + InOrphans(x, c.orphans) }

  /** The two documents hold the same marks, each as often. */
  ghost predicate SameMarks(a: Content, b: Content) { forall x: Mark :: Count(x, a) == Count(x, b) }

  lemma InSpansSnoc(x: Mark, qid: string, spans: seq<Span>, s: Span)
    ensures InSpans(x, qid, spans + [s]) == InSpans(x, qid, spans) + Once(SpanMark(qid, s) == x)
  {
    assert (spans + [s])[..|spans|] == spans;
  }

  lemma InOrphansSnoc(x: Mark, orphans: seq<Orphan>, o: Orphan)
    ensures InOrphans(x, orphans + [o]) == InOrphans(x, orphans) + Once(OrphanMark(o) == x)
  {
    assert (orphans + [o])[..|orphans|] == orphans;
  }

  lemma InQuestionsSnoc(x: Mark, qs: seq<Question>, q: Question)
    ensures InQuestions(x, qs + [q]) == InQuestions(x, qs) + InSpans(x, q.id, q.spans)
  {
    assert (qs + [q])[..|qs|] == qs;
  }

  lemma {:induction false} InOrphansConcat(x: Mark, a: seq<Orphan>, b: seq<Orphan>)
    ensures InOrphans(x, a + b) == InOrphans(x, a) + InOrphans(x, b)
    decreases |b|
  {
    if b == [] {
      assert a + b == a;
    } else {
      var init, last := b[..|b| - 1], b[|b| - 1];
      assert b == init + [last] && a + b == (a + init) + [last];
      InOrphansConcat(x, a, init);
      InOrphansSnoc(x, a + init, last);
    }
  }

  lemma {:induction false} InInserted(x: Mark, qid: string, s: Span, spans: seq<Span>)
    ensures InSpans(x, qid, Insert(s, spans, SpanKey)) == InSpans(x, qid, spans) + Once(SpanMark(qid, s) == x)
    decreases |spans|
  {
    if spans == [] || Leq(SpanKey(spans[|spans| - 1]), SpanKey(s)) {
      InSpansSnoc(x, qid, spans, s);
    } else {
      var init, last := spans[..|spans| - 1], spans[|spans| - 1];
      InInserted(x, qid, s, init);
      InSpansSnoc(x, qid, Insert(s, init, SpanKey), last);
    }
  }

  lemma {:induction false} InSorted(x: Mark, qid: string, spans: seq<Span>)
    ensures InSpans(x, qid, SortSpans(spans)) == InSpans(x, qid, spans)
    decreases |spans|
  {
    if spans != [] {
      InSorted(x, qid, spans[..|spans| - 1]);
      InInserted(x, qid, spans[|spans| - 1], SortSpans(spans[..|spans| - 1]));
    }
  }

  /** A rule that keeps every mark's id and reason, wherever the mark goes. */
  ghost predicate Keeps(rule: Rule) {
    && (forall s: Span :: rule.place(s).Some? ==> rule.place(s).value.id == s.id && rule.place(s).value.why == s.why)
    && (forall qid: string, s: Span :: OrphanMark(rule.lose(qid, s)) == SpanMark(qid, s))
  }

  lemma RuleKeeps(m: Move)
    requires Lawful(m.abc) && IsMove(m)
    ensures Keeps(RuleOf(m))
  {
    forall s: Span ensures Placed(m, s).Some? ==> Placed(m, s).value.id == s.id && Placed(m, s).value.why == s.why {
      PlacedSame(m, s);
    }
  }

  lemma {:induction false} QuestionConserves(x: Mark, rule: Rule, q: Question, n: nat)
    requires Keeps(rule) && n <= |q.spans|
    ensures InSpans(x, q.id, Survivors(rule, q.spans, n)) + InOrphans(x, Losses(rule, q, n)) == InSpans(x, q.id, q.spans[..n])
  {
    if n > 0 {
      var span := q.spans[n - 1];
      QuestionConserves(x, rule, q, n - 1);
      assert q.spans[..n] == q.spans[..n - 1] + [span];
      InSpansSnoc(x, q.id, q.spans[..n - 1], span);
      if rule.place(span).Some? {
        InSpansSnoc(x, q.id, Survivors(rule, q.spans, n - 1), rule.place(span).value);
        assert Losses(rule, q, n) == Losses(rule, q, n - 1);
      } else {
        InOrphansSnoc(x, Losses(rule, q, n - 1), rule.lose(q.id, span));
        assert Survivors(rule, q.spans, n) == Survivors(rule, q.spans, n - 1);
      }
    }
  }

  /** Rewriting this question keeps the mark, drawn or waiting. */
  ghost predicate Fair(x: Mark, move: Question -> Question, lose: Question -> seq<Orphan>, q: Question) {
    move(q).id == q.id && InSpans(x, q.id, move(q).spans) + InOrphans(x, lose(q)) == InSpans(x, q.id, q.spans)
  }

  lemma {:induction false} QuestionsConserve(x: Mark, move: Question -> Question, lose: Question -> seq<Orphan>, qs: seq<Question>, n: nat)
    requires n <= |qs| && forall q | q in qs :: Fair(x, move, lose, q)
    ensures InQuestions(x, Each(move, qs, n)) + InOrphans(x, Gather(lose, qs, n)) == InQuestions(x, qs[..n])
  {
    if n > 0 {
      var q := qs[n - 1];
      QuestionsConserve(x, move, lose, qs, n - 1);
      assert Fair(x, move, lose, q);
      ConserveBoth(x, qs, n - 1, Each(move, qs, n - 1), Gather(lose, qs, n - 1), move(q), lose(q));
    }
  }

  lemma ConserveBoth(x: Mark, qs: seq<Question>, n: nat, moved: seq<Question>, losses: seq<Orphan>, to: Question, lost: seq<Orphan>)
    requires n < |qs| && InQuestions(x, moved) + InOrphans(x, losses) == InQuestions(x, qs[..n])
    requires to.id == qs[n].id && InSpans(x, to.id, to.spans) + InOrphans(x, lost) == InSpans(x, to.id, qs[n].spans)
    ensures InQuestions(x, moved + [to]) + InOrphans(x, losses + lost) == InQuestions(x, qs[..n + 1])
  {
    assert qs[..n + 1] == qs[..n] + [qs[n]];
    InQuestionsSnoc(x, qs[..n], qs[n]);
    InQuestionsSnoc(x, moved, to);
    InOrphansConcat(x, losses, lost);
  }

  lemma MovedConserves(x: Mark, rule: Rule, q: Question)
    requires Keeps(rule)
    ensures Fair(x, Mover(rule), Loser(rule), q)
  {
    QuestionConserves(x, rule, q, |q.spans|);
    assert q.spans[..|q.spans|] == q.spans;
    InSorted(x, q.id, Survivors(rule, q.spans, |q.spans|));
  }

  lemma RewrittenConserves(x: Mark, rule: Rule, c: Content, newText: string)
    requires Keeps(rule)
    ensures Count(x, Rewritten(rule, c, newText)) == Count(x, c)
  {
    var qs := c.questions;
    forall q | q in qs ensures Fair(x, Mover(rule), Loser(rule), q) { MovedConserves(x, rule, q); }
    QuestionsConserve(x, Mover(rule), Loser(rule), qs, |qs|);
    assert qs[..|qs|] == qs;
    InOrphansConcat(x, c.orphans, Gather(Loser(rule), qs, |qs|));
  }

  /** Editing the text loses no mark and invents none. */
  lemma ReanchorConserves(abc: Alphabet, c: Content, newText: string)
    requires Lawful(abc)
    ensures SameMarks(Reanchor(abc, c, newText), c)
  {
    var m := MoveOf(abc, c.text, newText);
    RuleKeeps(m);
    forall x: Mark ensures Count(x, Reanchor(abc, c, newText)) == Count(x, c) {
      RewrittenConserves(x, RuleOf(m), c, newText);
    }
  }

  lemma {:induction false} SurvivorsAre(rule: Rule, spans: seq<Span>, n: nat, to: Span)
    requires n <= |spans|
    ensures to in Survivors(rule, spans, n) <==> exists k | 0 <= k < n :: rule.place(spans[k]) == Some(to)
  {
    if n > 0 { SurvivorsAre(rule, spans, n - 1, to); }
  }

  /** The spans of a question after the edit are exactly those of its old spans that found a
      place, and each of them stands on the words it stood on before. */
  lemma SurvivorsKeepWords(abc: Alphabet, c: Content, newText: string, k: nat, to: Span)
    requires Lawful(abc) && k < |c.questions|
    ensures var m := MoveOf(abc, c.text, newText);
            to in Reanchor(abc, c, newText).questions[k].spans <==>
            exists i | 0 <= i < |c.questions[k].spans| ::
              Placed(m, c.questions[k].spans[i]) == Some(to) && SameMark(m, c.questions[k].spans[i], to)
  {
    var m, spans := MoveOf(abc, c.text, newText), c.questions[k].spans;
    var rule := RuleOf(m);
    EachAt(Mover(rule), c.questions, |c.questions|, k);
    SortByIs(Survivors(rule, spans, |spans|), SpanKey);
    SurvivorsAre(rule, spans, |spans|, to);
    forall i | 0 <= i < |spans| ensures rule.place(spans[i]) == Some(to) <==> Placed(m, spans[i]) == Some(to) && SameMark(m, spans[i], to) {
      PlacedSame(m, spans[i]);
    }
  }

  lemma {:induction false} LossesEmpty(rule: Rule, q: Question, n: nat)
    requires n <= |q.spans|
    ensures Losses(rule, q, n) == [] <==> forall k | 0 <= k < n :: rule.place(q.spans[k]).Some?
  {
    if n > 0 { LossesEmpty(rule, q, n - 1); }
  }

  /** The words a mark covers in the old text stand somewhere in the new one. */
  ghost predicate WordsRemain(m: Move, span: Span) {
    var run := ToRun(m.oldTs, RangeOf(span));
    run.Some? && Occurs(m.abc, m.newTs, RunWords(m.abc, m.oldTs, run.value))
  }

  /** The preview counts the new orphans, and announces none exactly when every mark's words
      remain. */
  lemma PreviewIs(abc: Alphabet, c: Content, newText: string)
    requires Lawful(abc)
    ensures PreviewLost(abc, c, newText) >= 0
    ensures PreviewLost(abc, c, newText) == 0 <==>
              forall k | 0 <= k < |c.questions| ::
                forall i | 0 <= i < |c.questions[k].spans| :: WordsRemain(MoveOf(abc, c.text, newText), c.questions[k].spans[i])
  {
    var m := MoveOf(abc, c.text, newText);
    var rule := RuleOf(m);
    GatherNone(Loser(rule), c.questions, |c.questions|);
    forall k | 0 <= k < |c.questions|
      ensures Loser(rule)(c.questions[k]) == [] <==>
              forall i | 0 <= i < |c.questions[k].spans| :: WordsRemain(m, c.questions[k].spans[i])
    {
      LossesEmpty(rule, c.questions[k], |c.questions[k].spans|);
      forall i | 0 <= i < |c.questions[k].spans|
        ensures rule.place(c.questions[k].spans[i]).Some? <==> WordsRemain(m, c.questions[k].spans[i])
      {
        PlacedSame(m, c.questions[k].spans[i]);
      }
    }
  }

  // ----- The same text -----

  lemma {:induction false} PrefixOfSelf(a: string, k: nat)
    requires k <= |a|
    ensures CommonPrefix(a, a, k) == |a|
    decreases |a| - k
  {
    if k < |a| { PrefixOfSelf(a, k + 1); }
  }

  lemma StaysPut(m: Move, span: Span)
    requires Lawful(m.abc) && IsMove(m) && m.oldText == m.newText && OnTokens(m.oldTs, RangeOf(span))
    ensures Placed(m, span) == Some(span)
  {
    PrefixOfSelf(m.oldText, 0);
    TokenizeOrdered(m.abc, m.oldText);
    EdgesDecide(m, span);
    assert MovedTo(span, ShiftedStart(m.edit, span)) == span;
  }

  lemma {:induction false} AllStay(rule: Rule, q: Question, n: nat)
    requires n <= |q.spans| && forall s | s in q.spans :: rule.place(s) == Some(s)
    ensures Survivors(rule, q.spans, n) == q.spans[..n] && Losses(rule, q, n) == []
  {
    if n > 0 {
      AllStay(rule, q, n - 1);
      assert q.spans[..n] == q.spans[..n - 1] + [q.spans[n - 1]];
    }
  }

  lemma {:induction false} QuestionsStay(move: Question -> Question, lose: Question -> seq<Orphan>, qs: seq<Question>, n: nat)
    requires n <= |qs| && forall k | 0 <= k < |qs| :: Unmoved(move, lose, qs[k])
    ensures Each(move, qs, n) == qs[..n] && Gather(lose, qs, n) == []
  {
    if n > 0 {
      QuestionsStay(move, lose, qs, n - 1);
      assert Unmoved(move, lose, qs[n - 1]);
    }
  }

  lemma QuestionStays(rule: Rule, q: Question)
    requires Stays(rule, q)
    ensures Unmoved(Mover(rule), Loser(rule), q)
  {
    AllStay(rule, q, |q.spans|);
    assert q.spans[..|q.spans|] == q.spans;
    SortByIdentity(q.spans, SpanKey);
  }

  ghost predicate Unmoved(move: Question -> Question, lose: Question -> seq<Orphan>, q: Question) {
    move(q) == q && lose(q) == []
  }

  ghost predicate Stays(rule: Rule, q: Question) {
    Sorted(q.spans, SpanKey) && forall s | s in q.spans :: rule.place(s) == Some(s)
  }

  ghost predicate Settled(ts: seq<Token>, q: Question) {
    Sorted(q.spans, SpanKey) && forall s | s in q.spans :: OnTokens(ts, RangeOf(s))
  }

  /** Applying an edit that changes nothing changes nothing, when the marks are in text order and
      on token edges. */
  lemma SameTextIsIdentity(abc: Alphabet, c: Content)
    requires Lawful(abc) && forall k | 0 <= k < |c.questions| :: Settled(Tokenize(abc, c.text), c.questions[k])
    ensures Reanchor(abc, c, c.text) == c
  {
    var m := MoveOf(abc, c.text, c.text);
    forall k | 0 <= k < |c.questions| ensures Unmoved(Mover(RuleOf(m)), Loser(RuleOf(m)), c.questions[k]) {
      assert Settled(Tokenize(abc, c.text), c.questions[k]);
      forall s | s in c.questions[k].spans ensures RuleOf(m).place(s) == Some(s) { StaysPut(m, s); }
      QuestionStays(RuleOf(m), c.questions[k]);
    }
    QuestionsStay(Mover(RuleOf(m)), Loser(RuleOf(m)), c.questions, |c.questions|);
    assert c.questions[..|c.questions|] == c.questions;
    assert c.orphans + [] == c.orphans;
  }

  // ----- Putting back -----

  /** Ids are unique over the whole document, questions' among themselves. */
  ghost predicate UniqueIds(c: Content) {
    && (forall x, y | Count(x, c) > 0 && Count(y, c) > 0 && x.id == y.id :: x == y)
    && (forall x: Mark :: Count(x, c) <= 1)
    && (forall k, l | 0 <= k < l < |c.questions| :: c.questions[k].id != c.questions[l].id)
  }

  lemma {:induction false} OrphanCounts(orphans: seq<Orphan>, o: Orphan)
    requires o in orphans
    ensures InOrphans(OrphanMark(o), orphans) > 0
    decreases |orphans|
  {
    var init, last := orphans[..|orphans| - 1], orphans[|orphans| - 1];
    assert orphans == init + [last];
    if o != last { OrphanCounts(init, o); }
  }

  /** Leaving the orphans of one id out leaves the other marks alone. */
  lemma {:induction false} OthersCount(x: Mark, orphans: seq<Orphan>, id: string)
    ensures InOrphans(x, Others(orphans, OrphanId(), id)) == if x.id == id then 0 else InOrphans(x, orphans)
    decreases |orphans|
  {
    if orphans != [] {
      var init, last := orphans[..|orphans| - 1], orphans[|orphans| - 1];
      OthersCount(x, init, id);
      InOrphansSnoc(x, Others(init, OrphanId(), id), last);
      if last.id == id { assert Others(orphans, OrphanId(), id) == Others(init, OrphanId(), id); }
    }
  }

  /** The number of questions with this id among the first ones. */
  function Holders(qs: seq<Question>, qid: string): nat {
    if qs == [] then 0 else Holders(qs[..|qs| - 1], qid) + Once(qs[|qs| - 1].id == qid)
  }

  lemma {:induction false} OneHolder(qs: seq<Question>, qid: string)
    requires forall k, l | 0 <= k < l < |qs| :: qs[k].id != qs[l].id
    ensures Holders(qs, qid) == Once(exists k | 0 <= k < |qs| :: qs[k].id == qid)
    decreases |qs|
  {
    if qs != [] {
      var init, last := qs[..|qs| - 1], qs[|qs| - 1];
      assert forall k | 0 <= k < |init| :: init[k] == qs[k] && qs[k].id != last.id;
      OneHolder(init, qid);
      if k :| 0 <= k < |qs| && qs[k].id == qid { assert k < |init| ==> init[k].id == qid; }
      if k :| 0 <= k < |init| && init[k].id == qid { assert qs[k].id == qid; }
    }
  }

  lemma {:induction false} AddSpanCounts(x: Mark, qs: seq<Question>, qid: string, span: Span)
    ensures InQuestions(x, AddSpan(qs, qid, span))
            == InQuestions(x, qs) + if SpanMark(qid, span) == x then Holders(qs, qid) else 0
    decreases |qs|
  {
    if qs != [] {
      var init, last := qs[..|qs| - 1], qs[|qs| - 1];
      AddSpanCounts(x, init, qid, span);
      WithSpanCounts(x, last, qid, span);
      InQuestionsSnoc(x, AddSpan(init, qid, span), WithSpan(last, qid, span));
    }
  }

  lemma WithSpanCounts(x: Mark, q: Question, qid: string, span: Span)
    ensures var to := WithSpan(q, qid, span);
            && to.id == q.id
            && InSpans(x, to.id, to.spans) == InSpans(x, q.id, q.spans) + Once(q.id == qid && SpanMark(qid, span) == x)
  {
    InSorted(x, qid, q.spans + [span]);
    InSpansSnoc(x, qid, q.spans, span);
  }

  function Restored(c: Content, o: Orphan, span: Span): Content {
    c.(orphans := Others(c.orphans, OrphanId(), o.id), questions := AddSpan(c.questions, o.qid, span))
  }

  lemma RestoreConserves(x: Mark, c: Content, o: Orphan, span: Span)
    requires UniqueIds(c) && o in c.orphans && span.id == o.id && span.why == o.why
    requires exists k | 0 <= k < |c.questions| :: c.questions[k].id == o.qid
    ensures Count(x, Restored(c, o, span)) == Count(x, c)
  {
    WaitsOnce(x, c, o);
    OthersCount(x, c.orphans, o.id);
    AddSpanCounts(x, c.questions, o.qid, span);
    OneHolder(c.questions, o.qid);
  }

  /** With unique ids, an orphan is the only mark of its id, and waits once. */
  lemma WaitsOnce(x: Mark, c: Content, o: Orphan)
    requires UniqueIds(c) && o in c.orphans
    ensures x.id == o.id ==> InOrphans(x, c.orphans) == Once(x == OrphanMark(o))
  {
    OrphanCounts(c.orphans, o);
    assert Count(OrphanMark(o), c) == 1;
    if x.id == o.id && Count(x, c) > 0 { assert x == OrphanMark(o); }
  }

  lemma UniqueStays(a: Content, b: Content)
    requires UniqueIds(b) && SameMarks(a, b)
    requires |a.questions| == |b.questions| && forall k | 0 <= k < |a.questions| :: a.questions[k].id == b.questions[k].id
    ensures UniqueIds(a)
  {}

  /** Putting an orphan back keeps every mark: it leaves the orphans and joins its question. */
  lemma PutBackConserves(abc: Alphabet, c: Content, id: string)
    requires UniqueIds(c)
    ensures SameMarks(PutBack(abc, c, id), c) && UniqueIds(PutBack(abc, c, id))
  {
    var found := FindOrphan(c.orphans, id, 0);
    if found.Some? && exists k | 0 <= k < |c.questions| :: c.questions[k].id == found.value.qid {
      var back := PutBackSpan(abc, c.text, found.value);
      if back.Some? {
        forall x: Mark ensures Count(x, PutBack(abc, c, id)) == Count(x, c) {
          RestoreConserves(x, c, found.value, back.value);
        }
        UniqueStays(PutBack(abc, c, id), c);
      }
    }
  }

  /** The author's edits of the text and of the orphans, short of dropping one. */
  datatype TextEdit = Retext(newText: string) | Restore(orphanId: string)

  function EditText(abc: Alphabet, c: Content, edit: TextEdit): Content {
    match edit
    case Retext(newText) => Reanchor(abc, c, newText)
    case Restore(id) => PutBack(abc, c, id)
  }

  function EditAll(abc: Alphabet, c: Content, edits: seq<TextEdit>): Content {
    if edits == [] then c else EditText(abc, EditAll(abc, c, edits[..|edits| - 1]), edits[|edits| - 1])
  }

  lemma ReanchorUnique(abc: Alphabet, c: Content, newText: string)
    requires Lawful(abc) && UniqueIds(c)
    ensures UniqueIds(Reanchor(abc, c, newText))
  {
    ReanchorConserves(abc, c, newText);
    var rule := RuleOf(MoveOf(abc, c.text, newText));
    forall k | 0 <= k < |c.questions| ensures Reanchor(abc, c, newText).questions[k].id == c.questions[k].id {
      EachAt(Mover(rule), c.questions, |c.questions|, k);
    }
    UniqueStays(Reanchor(abc, c, newText), c);
  }

  /** However often the passage is rewritten and orphans put back, the document still holds
      exactly the marks it had, each with its question and its reason. */
  lemma {:induction false} NoMarkIsLost(abc: Alphabet, c: Content, edits: seq<TextEdit>)
    requires Lawful(abc) && UniqueIds(c)
    ensures SameMarks(EditAll(abc, c, edits), c) && UniqueIds(EditAll(abc, c, edits))
    decreases |edits|
  {
    if edits != [] {
      var before := EditAll(abc, c, edits[..|edits| - 1]);
      NoMarkIsLost(abc, c, edits[..|edits| - 1]);
      match edits[|edits| - 1] {
        case Retext(newText) =>
          ReanchorConserves(abc, before, newText);
          ReanchorUnique(abc, before, newText);
        case Restore(id) => PutBackConserves(abc, before, id);
      }
    }
  }
}
