/** Character offsets and token runs of a passage, and how a student's marks are snapped. */
module Coordinates {
  import opened Options
  import opened Sequences
  import opened Tokens
  import opened Sorting

  /** Inclusive token indices. */
  datatype Run = Run(t0: nat, t1: nat)

  /** Character offsets, `end` exclusive. */
  datatype Range = Range(start: int, end: int)

  // ----- Ranges to runs and back -----

  predicate Touches(t: Token, range: Range) { range.start < t.e && t.s < range.end }

  function FirstEndingAfter(ts: seq<Token>, p: int, k: nat): (i: nat)
    requires k <= |ts|
    ensures k <= i <= |ts| && (i < |ts| ==> ts[i].e > p) && forall t | k <= t < i :: ts[t].e <= p
    decreases |ts| - k
  {
    if k < |ts| && ts[k].e <= p then FirstEndingAfter(ts, p, k + 1) else k
  }

  function FirstStartingAt(ts: seq<Token>, p: int, k: nat): (i: nat)
    requires k <= |ts|
    ensures k <= i <= |ts| && (i < |ts| ==> ts[i].s >= p) && forall t | k <= t < i :: ts[t].s < p
    decreases |ts| - k
  {
    if k < |ts| && ts[k].s < p then FirstStartingAt(ts, p, k + 1) else k
  }

  /** The run of tokens a range touches. */
  function ToRun(ts: seq<Token>, range: Range): Option<Run> {
    if range.end <= range.start then None
    else
      var i := FirstEndingAfter(ts, range.start, 0);
      var j := FirstStartingAt(ts, range.end, i);
      if i < j then Some(Run(i, j - 1)) else None
  }

  /** The scan of the source: skip what ends before the range, stop at what starts behind it. */
  method ToTokenRun(ts: seq<Token>, range: Range) returns (run: Option<Run>)
    requires forall k | 0 <= k < |ts| :: ts[k].i == k
    requires forall k, l | 0 <= k < l < |ts| :: ts[k].e <= ts[l].e
    ensures run == ToRun(ts, range)
  {
    if range.end <= range.start { return None; }
    var t0: int, t1: int := -1, -1;
    var k: nat := 0;
    ghost var i := FirstEndingAfter(ts, range.start, 0);
    while k < |ts|
      invariant k <= |ts|
      invariant k <= i ==> t0 == -1 && t1 == -1
      invariant i < k ==> t0 == i && t1 == k - 1 && FirstStartingAt(ts, range.end, k) == FirstStartingAt(ts, range.end, i)
    {
      if ts[k].e > range.start {
        assert i <= k;
        if ts[k].s >= range.end { break; }
        if t0 == -1 { t0 := ts[k].i; }
        t1 := ts[k].i;
      }
      k := k + 1;
    }
    run := if t0 == -1 then None else Some(Run(t0, t1));
  }

  /** On ordered tokens, the run is exactly the tokens the range touches. */
  lemma ToRunTouches(ts: seq<Token>, n: nat, range: Range)
    requires Ordered(ts, n)
    ensures range.end > range.start ==>
              (ToRun(ts, range).None? <==> forall k | 0 <= k < |ts| :: !Touches(ts[k], range))
    ensures ToRun(ts, range).Some? ==> var r := ToRun(ts, range).value;
              && r.t0 <= r.t1 < |ts|
              && forall k | 0 <= k < |ts| :: r.t0 <= k <= r.t1 <==> Touches(ts[k], range)
  {
    if range.end > range.start {
      var i := FirstEndingAfter(ts, range.start, 0);
      var j := FirstStartingAt(ts, range.end, i);
      forall k | 0 <= k < |ts| ensures i <= k < j <==> Touches(ts[k], range) {
        if i < |ts| { TokenOrder(ts, n, i, k); }
        if j < |ts| { TokenOrder(ts, n, j, k); }
      }
      if i < j { assert Touches(ts[i], range); }
    }
  }

  predicate InTokens(r: Run, ts: seq<Token>) { r.t0 <= r.t1 < |ts| }

  function ToRange(ts: seq<Token>, r: Run): Range {
    if r.t0 < |ts| && r.t1 < |ts| then Range(ts[r.t0].s, ts[r.t1].e) else Range(0, 0)
  }

  /** The characters a run covers touch exactly that run. */
  lemma RunRoundTrip(ts: seq<Token>, n: nat, r: Run)
    requires Ordered(ts, n) && InTokens(r, ts)
    ensures ToRun(ts, ToRange(ts, r)) == Some(r)
    ensures ToRange(ts, r).start < ToRange(ts, r).end
  {
    var range := ToRange(ts, r);
    TokenOrder(ts, n, r.t0, r.t1);
    ToRunTouches(ts, n, range);
    assert Touches(ts[r.t0], range) && Touches(ts[r.t1], range);
    var q := ToRun(ts, range).value;
    assert Touches(ts[q.t0], range) && Touches(ts[q.t1], range);
    TokenOrder(ts, n, q.t0, r.t0);
    TokenOrder(ts, n, r.t1, q.t1);
  }

  lemma TokenOrder(ts: seq<Token>, n: nat, a: nat, b: nat)
    requires Ordered(ts, n) && a < |ts| && b < |ts|
    ensures a < b ==> ts[a].e < ts[b].s
    ensures ts[a].s < ts[a].e <= n
  {}

  /** A range that sits on token edges: it starts where a token starts and ends where one ends. */
  predicate OnTokens(ts: seq<Token>, range: Range) {
    && range.start < range.end
    && (exists k | 0 <= k < |ts| :: ts[k].s == range.start)
    && (exists k | 0 <= k < |ts| :: ts[k].e == range.end)
  }

  /** On token edges, range and run determine each other. */
  lemma OnTokensRoundTrip(ts: seq<Token>, n: nat, range: Range)
    requires Ordered(ts, n) && OnTokens(ts, range)
    ensures ToRun(ts, range).Some? && InTokens(ToRun(ts, range).value, ts)
    ensures ToRange(ts, ToRun(ts, range).value) == range
  {
    var a :| 0 <= a < |ts| && ts[a].s == range.start;
    var b :| 0 <= b < |ts| && ts[b].e == range.end;
    TokenOrder(ts, n, b, a);
    RunRoundTrip(ts, n, Run(a, b));
    assert ToRange(ts, Run(a, b)) == range;
  }

  // ----- Paragraphs -----

  /** The paragraph of a position, searching from paragraph `p` on; `ends` are the paragraph ends. */
  function ParagraphAt(ends: seq<nat>, p: nat, pos: int): (q: nat)
    ensures p <= q
    decreases |ends| - p
  {
    if p + 1 < |ends| && pos >= ends[p] then ParagraphAt(ends, p + 1, pos) else p
  }

  function ParagraphsFrom(ends: seq<nat>, ts: seq<Token>, k: nat, p: nat): (out: seq<nat>)
    requires k <= |ts|
    ensures |out| == |ts| - k
    decreases |ts| - k
  {
    if k == |ts| then []
    else
      var q := ParagraphAt(ends, p, ts[k].s);
      [q] + ParagraphsFrom(ends, ts, k + 1, q)
  }

  method ParagraphOfTokens(ends: seq<nat>, ts: seq<Token>) returns (out: seq<nat>)
    ensures out == ParagraphsFrom(ends, ts, 0, 0)
  {
    out := [];
    var p: nat := 0;
    ghost var all := ParagraphsFrom(ends, ts, 0, 0);
    for k := 0 to |ts|
      invariant all == out + ParagraphsFrom(ends, ts, k, p)
    {
      ghost var before := p;
      while p + 1 < |ends| && ts[k].s >= ends[p]
        invariant ParagraphAt(ends, before, ts[k].s) == ParagraphAt(ends, p, ts[k].s)
        decreases |ends| - p
      {
        p := p + 1;
      }
      Reassociate(out, p, ParagraphsFrom(ends, ts, k + 1, p));
      out := out + [p];
    }
  }

  ghost predicate Monotone(para: seq<nat>) { forall i, j | 0 <= i <= j < |para| :: para[i] <= para[j] }

  lemma {:induction false} ParagraphsMonotone(ends: seq<nat>, ts: seq<Token>, k: nat, p: nat)
    requires k <= |ts|
    ensures Monotone(ParagraphsFrom(ends, ts, k, p))
    ensures forall x | x in ParagraphsFrom(ends, ts, k, p) :: p <= x
    decreases |ts| - k
  {
    if k < |ts| {
      var q := ParagraphAt(ends, p, ts[k].s);
      var rest, all := ParagraphsFrom(ends, ts, k + 1, q), ParagraphsFrom(ends, ts, k, p);
      ParagraphsMonotone(ends, ts, k + 1, q);
      forall i, j | 0 <= i <= j < |all| ensures all[i] <= all[j] {
        if j > 0 { assert all[j] == rest[j - 1] && rest[j - 1] in rest; }
        if i > 0 { assert all[i] == rest[i - 1]; }
      }
    }
  }

  /** Every paragraph before number `q` ends at or before the position, and paragraph `q`, unless it
      is the last, ends behind it. */
  predicate InParagraph(ends: seq<nat>, q: nat, pos: int) {
    (q < |ends| || q == 0) && (forall x | 0 <= x < q && x < |ends| :: ends[x] <= pos) && (q + 1 < |ends| ==> pos < ends[q])
  }

  lemma {:induction false} ParagraphAtIs(ends: seq<nat>, p: nat, pos: int)
    requires (p < |ends| || p == 0) && forall x | 0 <= x < p && x < |ends| :: ends[x] <= pos
    ensures InParagraph(ends, ParagraphAt(ends, p, pos), pos)
    decreases |ends| - p
  {
    if p + 1 < |ends| && pos >= ends[p] { ParagraphAtIs(ends, p + 1, pos); }
  }

  /** The number of every token is that of the paragraph it stands in. */
  lemma {:induction false} ParagraphsAre(ends: seq<nat>, ts: seq<Token>, n: nat, k: nat, p: nat)
    requires Ordered(ts, n) && k <= |ts| && (p < |ends| || p == 0) && (k < |ts| ==> forall x | 0 <= x < p && x < |ends| :: ends[x] <= ts[k].s)
    ensures forall t | k <= t < |ts| :: InParagraph(ends, ParagraphsFrom(ends, ts, k, p)[t - k], ts[t].s)
    decreases |ts| - k
  {
    if k < |ts| {
      var q := ParagraphAt(ends, p, ts[k].s);
      ParagraphAtIs(ends, p, ts[k].s);
      if k + 1 < |ts| { TokenOrder(ts, n, k, k + 1); }
      ParagraphsAre(ends, ts, n, k + 1, q);
      var rest, all := ParagraphsFrom(ends, ts, k + 1, q), ParagraphsFrom(ends, ts, k, p);
      forall t | k <= t < |ts| ensures InParagraph(ends, all[t - k], ts[t].s) {
        if t > k { assert all[t - k] == rest[t - (k + 1)]; }
      }
    }
  }

  // ----- Clamping -----

  function ClampLow(para: seq<nat>, origin: nat, t0: nat): (lo: nat)
    requires t0 <= origin < |para|
    ensures t0 <= lo <= origin && para[lo] == para[origin]
    ensures forall t | t0 <= t < lo :: para[t] != para[origin]
    decreases origin - t0
  {
    if t0 < origin && para[t0] != para[origin] then ClampLow(para, origin, t0 + 1) else t0
  }

  function ClampHigh(para: seq<nat>, origin: nat, t1: nat): (hi: nat)
    requires origin <= t1 < |para|
    ensures origin <= hi <= t1 && para[hi] == para[origin]
    ensures forall t | hi < t <= t1 :: para[t] != para[origin]
    decreases t1 - origin
  {
    if t1 > origin && para[t1] != para[origin] then ClampHigh(para, origin, t1 - 1) else t1
  }

  function Clamp(para: seq<nat>, origin: nat, other: nat): Run
    requires origin < |para| && other < |para|
  {
    Run(ClampLow(para, origin, if origin <= other then origin else other),
        ClampHigh(para, origin, if origin <= other then other else origin))
  }

  method ClampToParagraph(para: seq<nat>, origin: nat, other: nat) returns (run: Run)
    requires origin < |para| && other < |para|
    ensures run == Clamp(para, origin, other)
  {
    var p := para[origin];
    var t0: nat, t1: nat := if origin <= other then origin else other, if origin <= other then other else origin;
    ghost var lo, hi := ClampLow(para, origin, t0), ClampHigh(para, origin, t1);
    while t0 < origin && para[t0] != p
      invariant t0 <= origin && ClampLow(para, origin, t0) == lo
    {
      t0 := t0 + 1;
    }
    while t1 > origin && para[t1] != p
      invariant origin <= t1 < |para| && ClampHigh(para, origin, t1) == hi
    {
      t1 := t1 - 1;
    }
    run := Run(t0, t1);
  }

  predicate OneParagraph(para: seq<nat>, r: Run) {
    r.t0 <= r.t1 < |para| && forall t | r.t0 <= t <= r.t1 :: para[t] == para[r.t0]
  }

  /** The clamped run is the part of the drag that lies in the origin's paragraph. */
  lemma ClampIs(para: seq<nat>, origin: nat, other: nat)
    requires Monotone(para) && origin < |para| && other < |para|
    ensures OneParagraph(para, Clamp(para, origin, other))
    ensures forall t :: Clamp(para, origin, other).t0 <= t <= Clamp(para, origin, other).t1 <==>
              (if origin <= other then origin <= t <= other else other <= t <= origin) && para[t] == para[origin]
  {
    var r := Clamp(para, origin, other);
    forall t | r.t0 <= t <= r.t1 ensures para[t] == para[origin] {
      assert para[r.t0] <= para[t] <= para[r.t1];
    }
  }

  // ----- Merging -----

  function RunKey(r: Run): (int, int) { (r.t0, r.t1) }

  function MaxOf(a: nat, b: nat): nat { if a >= b then a else b }

  /** `last` is the run being widened; the runs from `k` on are still to come. */
  function MergeFrom(last: Run, s: seq<Run>, k: nat): (out: seq<Run>)
    requires k <= |s|
    ensures out != []
    decreases |s| - k
  {
    if k == |s| then [last]
    else if s[k].t0 <= last.t1 then MergeFrom(last.(t1 := MaxOf(last.t1, s[k].t1)), s, k + 1)
    else [last] + MergeFrom(s[k], s, k + 1)
  }

  function MergeSorted(s: seq<Run>): seq<Run> { if s == [] then [] else MergeFrom(s[0], s, 1) }

  function MergeRuns(runs: seq<Run>): seq<Run> { MergeSorted(SortBy(runs, RunKey)) }

  method MergeAll(runs: seq<Run>) returns (out: seq<Run>)
    ensures out == MergeRuns(runs)
  {
    var s := SortBy(runs, RunKey);
    out := [];
    if s == [] { return; }
    ghost var all := MergeSorted(s);
    ghost var done: seq<Run>, cur := [], s[0];
    out := [s[0]];
    for k := 1 to |s|
      invariant out == done + [cur] && all == done + MergeFrom(cur, s, k)
    {
      var top := |out| - 1;
      var last := out[top];
      if s[k].t0 <= last.t1 {
        var wider := last.(t1 := MaxOf(last.t1, s[k].t1));
        LastOf(out, done, cur, wider);
        out := out[top := wider];
        cur := wider;
      } else {
        Reassociate(done, cur, MergeFrom(s[k], s, k + 1));
        done, cur := out, s[k];
        out := out + [s[k]];
      }
    }
  }

  // ----- What merging does -----

  predicate Holds(r: Run, x: nat, y: nat) { r.t0 <= x && y <= r.t1 }

  predicate SomeHolds(runs: seq<Run>, x: nat, y: nat) { exists k | 0 <= k < |runs| :: Holds(runs[k], x, y) }

  ghost predicate Proper(runs: seq<Run>) { forall k | 0 <= k < |runs| :: runs[k].t0 <= runs[k].t1 }

  ghost predicate Disjoint(runs: seq<Run>) {
    && Proper(runs)
    && (forall k, l | 0 <= k < l < |runs| :: runs[k].t1 < runs[l].t0)
  }

  ghost predicate StartsAtLeast(s: seq<Run>, k: nat, t0: nat) { forall t | k <= t < |s| :: s[t].t0 >= t0 }

  lemma {:induction false} MergeHolds(last: Run, s: seq<Run>, k: nat, x: nat, y: nat)
    requires k <= |s| && last.t0 <= last.t1 && Proper(s) && StartsAtLeast(s, k, last.t0) && Sorted(s, RunKey)
    requires x <= y <= x + 1
    ensures SomeHolds(MergeFrom(last, s, k), x, y) <==>
            Holds(last, x, y) || exists t | k <= t < |s| :: Holds(s[t], x, y)
    decreases |s| - k
  {
    if k < |s| {
      var r := s[k];
      assert StartsAtLeast(s, k + 1, r.t0) by {
        forall t | k + 1 <= t < |s| ensures s[t].t0 >= r.t0 { assert Leq(RunKey(s[k]), RunKey(s[t])); }
      }
      if r.t0 <= last.t1 {
        var wider := last.(t1 := MaxOf(last.t1, r.t1));
        MergeHolds(wider, s, k + 1, x, y);
        assert Holds(wider, x, y) <==> Holds(last, x, y) || Holds(r, x, y);
      } else {
        MergeHolds(r, s, k + 1, x, y);
        HoldsCons(last, MergeFrom(r, s, k + 1), x, y);
      }
    } else {
      HoldsCons(last, [], x, y);
      assert [last] + [] == [last];
    }
  }

  lemma HoldsCons(r: Run, rest: seq<Run>, x: nat, y: nat)
    ensures SomeHolds([r] + rest, x, y) <==> Holds(r, x, y) || SomeHolds(rest, x, y)
  {
    var all := [r] + rest;
    if SomeHolds(rest, x, y) {
      var k :| 0 <= k < |rest| && Holds(rest[k], x, y);
      assert Holds(all[k + 1], x, y);
    }
    if Holds(r, x, y) { assert Holds(all[0], x, y); }
    if SomeHolds(all, x, y) {
      var k :| 0 <= k < |all| && Holds(all[k], x, y);
      if k > 0 { assert Holds(rest[k - 1], x, y); }
    }
  }

  lemma {:induction false} MergeDisjoint(last: Run, s: seq<Run>, k: nat)
    requires k <= |s| && last.t0 <= last.t1 && Proper(s)
    ensures Disjoint(MergeFrom(last, s, k)) && MergeFrom(last, s, k)[0].t0 == last.t0
    decreases |s| - k
  {
    if k < |s| {
      if s[k].t0 <= last.t1 {
        MergeDisjoint(last.(t1 := MaxOf(last.t1, s[k].t1)), s, k + 1);
      } else {
        var rest := MergeFrom(s[k], s, k + 1);
        MergeDisjoint(s[k], s, k + 1);
        DisjointCons(last, rest);
      }
    }
  }

  lemma DisjointCons(r: Run, rest: seq<Run>)
    requires r.t0 <= r.t1 && Disjoint(rest) && (rest != [] ==> r.t1 < rest[0].t0)
    ensures Disjoint([r] + rest)
  {
    var all := [r] + rest;
    forall k, l | 0 <= k < l < |all| ensures all[k].t1 < all[l].t0 {
      assert all[l] == rest[l - 1];
      if k > 0 { assert all[k] == rest[k - 1]; }
      else if l > 1 { assert rest[0].t1 < rest[l - 1].t0; }
    }
    forall k | 0 <= k < |all| ensures all[k].t0 <= all[k].t1 { if k > 0 { assert all[k] == rest[k - 1]; } }
  }

  lemma RunOrder(runs: seq<Run>, a: nat, b: nat)
    requires Disjoint(runs) && a < |runs| && b < |runs|
    ensures runs[a].t0 <= runs[a].t1
    ensures a < b ==> runs[a].t1 < runs[b].t0
    ensures b < a ==> runs[b].t1 < runs[a].t0
  {}

  lemma {:induction false} DisjointMergeIdentity(last: Run, s: seq<Run>, k: nat)
    requires k <= |s| && Disjoint(s) && (k < |s| ==> last.t1 < s[k].t0)
    ensures MergeFrom(last, s, k) == [last] + s[k..]
    decreases |s| - k
  {
    if k < |s| {
      DisjointMergeIdentity(s[k], s, k + 1);
      assert s[k..] == [s[k]] + s[k + 1..];
    }
  }

  lemma DisjointIsSorted(s: seq<Run>)
    requires Disjoint(s)
    ensures Sorted(s, RunKey)
  {
    forall i, j | 0 <= i < j < |s| ensures Leq(RunKey(s[i]), RunKey(s[j])) { assert s[i].t1 < s[j].t0; }
  }

  /** Merging yields disjoint runs in text order; two tokens — one token, or two neighbours — lie
      in one of them exactly when some mark holds both: overlapping marks are joined, marks that
      merely touch stay apart.  Disjoint runs in order are left alone. */
  lemma MergeRunsIs(runs: seq<Run>)
    requires Proper(runs)
    ensures Disjoint(MergeRuns(runs))
    ensures forall x: nat, y: nat | x <= y <= x + 1 :: SomeHolds(MergeRuns(runs), x, y) <==> SomeHolds(runs, x, y)
    ensures Disjoint(runs) ==> MergeRuns(runs) == runs
  {
    MergedDisjoint(runs);
    forall x: nat, y: nat | x <= y <= x + 1 ensures SomeHolds(MergeRuns(runs), x, y) <==> SomeHolds(runs, x, y) {
      MergedHolds(runs, x, y);
    }
    if Disjoint(runs) { MergedSame(runs); }
  }

  lemma SortedProper(runs: seq<Run>) returns (s: seq<Run>)
    requires Proper(runs)
    ensures s == SortBy(runs, RunKey) && Proper(s) && Sorted(s, RunKey) && (forall r :: r in runs <==> r in s)
    ensures s != [] ==> StartsAtLeast(s, 1, s[0].t0)
  {
    s := SortBy(runs, RunKey);
    SortByIs(runs, RunKey);
    forall k | 0 <= k < |s| ensures s[k].t0 <= s[k].t1 { assert s[k] in s; }
    forall t | 1 <= t < |s| ensures s[t].t0 >= s[0].t0 { assert Leq(RunKey(s[0]), RunKey(s[t])); }
  }

  lemma MergedDisjoint(runs: seq<Run>)
    requires Proper(runs)
    ensures Disjoint(MergeRuns(runs))
  {
    var s := SortedProper(runs);
    if s != [] { MergeDisjoint(s[0], s, 1); }
  }

  lemma MergedHolds(runs: seq<Run>, x: nat, y: nat)
    requires Proper(runs) && x <= y <= x + 1
    ensures SomeHolds(MergeRuns(runs), x, y) <==> SomeHolds(runs, x, y)
  {
    var s := SortedProper(runs);
    SameElements(runs, s, x, y);
    if s != [] { MergeHolds(s[0], s, 1, x, y); }
  }

  lemma MergedSame(runs: seq<Run>)
    requires Disjoint(runs)
    ensures MergeRuns(runs) == runs
  {
    DisjointIsSorted(runs);
    SortByIdentity(runs, RunKey);
    if runs != [] {
      DisjointMergeIdentity(runs[0], runs, 1);
      assert runs == [runs[0]] + runs[1..];
    }
  }

  lemma SameElements(runs: seq<Run>, s: seq<Run>, x: nat, y: nat)
    requires forall r :: r in runs <==> r in s
    ensures SomeHolds(runs, x, y) <==> SomeHolds(s, x, y)
  {
    if SomeHolds(runs, x, y) {
      var k :| 0 <= k < |runs| && Holds(runs[k], x, y);
      assert runs[k] in s;
    }
    if SomeHolds(s, x, y) {
      var k :| 0 <= k < |s| && Holds(s[k], x, y);
      assert s[k] in runs;
    }
  }

  // ----- Snapping -----

  datatype SnapResult = Snapped(runs: seq<Run>) | Unsnappable(index: nat)

  /** The passage as the coordinates see it: its tokens and the paragraph of each. */
  datatype Passage = Passage(ts: seq<Token>, para: seq<nat>, length: nat)

  ghost predicate ValidPassage(p: Passage) {
    Ordered(p.ts, p.length) && |p.para| == |p.ts| && Monotone(p.para)
  }

  function PassageOf(abc: Alphabet, text: string, ends: seq<nat>): Passage {
    Passage(Tokenize(abc, text), ParagraphsFrom(ends, Tokenize(abc, text), 0, 0), |text|)
  }

  lemma PassageIsValid(abc: Alphabet, text: string, ends: seq<nat>)
    ensures ValidPassage(PassageOf(abc, text, ends))
  {
    TokenizeOrdered(abc, text);
    ParagraphsMonotone(ends, Tokenize(abc, text), 0, 0);
  }

  /** One mark: the tokens it touches, cut at the paragraph of the first. */
  function SnapOne(p: Passage, mark: Range): Option<Run> {
    match ToRun(p.ts, mark)
    case None => None
    case Some(r) => if r.t0 < |p.para| && r.t1 < |p.para| then Some(Clamp(p.para, r.t0, r.t1)) else None
  }

  /** All marks from `k` on, or the first that covers no token. */
  function SnapFrom(p: Passage, marks: seq<Range>, k: nat): SnapResult
    requires k <= |marks|
    decreases |marks| - k
  {
    if k == |marks| then Snapped([])
    else
      match SnapOne(p, marks[k])
      case None => Unsnappable(k)
      case Some(r) =>
        match SnapFrom(p, marks, k + 1)
        case Unsnappable(i) => Unsnappable(i)
        case Snapped(rest) => Snapped([r] + rest)
  }

  function SnapMarks(p: Passage, marks: seq<Range>): SnapResult {
    match SnapFrom(p, marks, 0)
    case Unsnappable(i) => Unsnappable(i)
    case Snapped(runs) => Snapped(MergeRuns(runs))
  }

  lemma EndsGrow(p: Passage)
    requires ValidPassage(p)
    ensures forall k | 0 <= k < |p.ts| :: p.ts[k].i == k
    ensures forall a, b | 0 <= a < b < |p.ts| :: p.ts[a].e <= p.ts[b].e
  {
    forall a, b | 0 <= a < b < |p.ts| ensures p.ts[a].e <= p.ts[b].e { assert p.ts[a].e < p.ts[b].s; }
  }

  lemma TouchedInPassage(p: Passage, mark: Range)
    requires ValidPassage(p)
    ensures match ToRun(p.ts, mark)
            case None => SnapOne(p, mark).None?
            case Some(r) => r.t0 < |p.para| && r.t1 < |p.para| && SnapOne(p, mark) == Some(Clamp(p.para, r.t0, r.t1))
  {
    ToRunTouches(p.ts, p.length, mark);
  }

  method Snap(p: Passage, marks: seq<Range>) returns (out: SnapResult)
    requires ValidPassage(p)
    ensures out == SnapMarks(p, marks)
  {
    var runs: seq<Run> := [];
    ghost var all := SnapFrom(p, marks, 0);
    for k := 0 to |marks|
      invariant match SnapFrom(p, marks, k)
                case Unsnappable(i) => all == Unsnappable(i)
                case Snapped(rest) => all == Snapped(runs + rest)
    {
      EndsGrow(p);
      var run := ToTokenRun(p.ts, marks[k]);
      TouchedInPassage(p, marks[k]);
      if run.None? { return Unsnappable(k); }
      var r := ClampToParagraph(p.para, run.value.t0, run.value.t1);
      ghost var next := SnapFrom(p, marks, k + 1);
      if next.Snapped? { Reassociate(runs, r, next.runs); }
      runs := runs + [r];
    }
    assert runs + [] == runs;
    runs := MergeAll(runs);
    out := Snapped(runs);
  }
}
