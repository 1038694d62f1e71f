/** Judging a student's edits against the derived spans, and routing the result. */
module Judging {
  import opened Text
  import opened Alignment
  import opened Spans

  /** What the student did: the words tapped, what was typed in place of a tapped word (blank strikes
      it out), and what was put into the gaps, numbered by the word behind them. */
  datatype Edits = Edits(marked: map<int, bool>, fix: map<int, string>, ins: map<int, string>)

  datatype Outcome = Missed | Attempted | Fixed
  datatype SpanState = SpanState(span: Span, touched: bool, hit: bool, localFix: string, outcome: Outcome)
  datatype StrayEdit = EditAt(index: int) | InsertAt(slot: int)
  datatype Verdict = VExact | VTypo | VPartial | VStray | VOff | VEmpty | VNoRef
  datatype Routing = Pass | Teacher

  datatype Judgement = Judgement(verdict: Verdict, sim: real, ops: seq<Op>, ref: string, states: seq<SpanState>,
                                 fixedCount: nat, spanCount: nat, built: string,
                                 stray: set<StrayEdit>, exact: bool)

  // ----- Normalisation -----

  const PUNCTUATION := "«»\"'“”.,;:!?()[]-–—"

  function BlankPunct(s: string): string {
    if s == "" then "" else [if s[0] in PUNCTUATION then ' ' else s[0]] + BlankPunct(s[1..])
  }

  function Norm(text: string, check: Check, lower: string -> string): string {
    var a := Collapse(text);
    var b := if check.caseInsensitive then lower(a) else a;
    if check.ignorePunct then Collapse(BlankPunct(b)) else b
  }

  // ----- The sentence the edits produce -----

  predicate Inserts(e: Edits, slot: int) { slot in e.ins && Trim(e.ins[slot]) != "" }
  predicate Marked(e: Edits, i: int) { i in e.marked && e.marked[i] }

  function SlotPiece(e: Edits, slot: int): seq<string> {
    if Inserts(e, slot) then [Trim(e.ins[slot])] else []
  }

  function WordPiece(w: seq<string>, e: Edits, i: nat): seq<string>
    requires i < |w|
  {
    if Marked(e, i) && i in e.fix then (if Trim(e.fix[i]) != "" then [Trim(e.fix[i])] else [])
    else [w[i]]
  }

  /** What stands from slot `i` to slot `j`, both slots included. */
  function Pieces(w: seq<string>, e: Edits, i: nat, j: nat): seq<string>
    requires i <= j <= |w|
    decreases j - i
  {
    if i == j then SlotPiece(e, j)
    else SlotPiece(e, i) + WordPiece(w, e, i) + Pieces(w, e, i + 1, j)
  }

  function Built(item: Item, e: Edits): string {
    var w := Words(item.wrong);
    Join(Pieces(w, e, 0, |w|))
  }

  /** The pieces from slot `from` to slot `to`, collected as the source's loops do. */
  method CollectPieces(w: seq<string>, e: Edits, from: nat, to: nat) returns (out: seq<string>)
    requires from <= to <= |w|
    ensures out == Pieces(w, e, from, to)
  {
    out := [];
    ghost var all := Pieces(w, e, from, to);
    var i := from;
    while i < to
      invariant from <= i <= to
      invariant all == out + Pieces(w, e, i, to)
    {
      ghost var slot, word, rest := SlotPiece(e, i), WordPiece(w, e, i), Pieces(w, e, i + 1, to);
      Regroup(out, slot, word, rest);
      if Inserts(e, i) { out := out + [Trim(e.ins[i])]; } else { assert out + slot == out; }
      if Marked(e, i) && i in e.fix {
        if Trim(e.fix[i]) != "" { out := out + [Trim(e.fix[i])]; } else { assert out + word == out; }
      } else {
        out := out + [w[i]];
      }
      i := i + 1;
    }
    if Inserts(e, to) { out := out + [Trim(e.ins[to])]; }
  }

  lemma Regroup<T>(a: seq<T>, b: seq<T>, c: seq<T>, d: seq<T>)
    ensures a + (b + c + d) == ((a + b) + c) + d
  {}

  // ----- One span -----

  predicate Fits(span: Span, w: seq<string>) { span.wFrom <= span.wTo <= |w| }

  predicate AllFit(spans: seq<Span>, w: seq<string>) { forall k | 0 <= k < |spans| :: Fits(spans[k], w) }

  function LocalFix(w: seq<string>, e: Edits, span: Span): string
    requires Fits(span, w)
  {
    Join(Pieces(w, e, span.wFrom, span.wTo))
  }

  predicate Touched(e: Edits, span: Span) {
    if span.wFrom == span.wTo then Inserts(e, span.wFrom)
    else
      || (exists slot | span.wFrom <= slot <= span.wTo :: Inserts(e, slot))
      || (exists i | span.wFrom <= i < span.wTo :: Marked(e, i))
  }

  predicate Hits(localFix: string, fix: string, check: Check, lower: string -> string) {
    || Norm(localFix, check, lower) == Norm(fix, check, lower)
    || (check.typo
        && |Words(localFix)| == |Words(fix)|
        && forall k | 0 <= k < |Words(fix)| :: WordEq(Words(localFix)[k], Words(fix)[k], check, lower))
  }

  function StateOf(w: seq<string>, e: Edits, span: Span, check: Check, lower: string -> string): SpanState
    requires Fits(span, w)
  {
    var local := LocalFix(w, e, span);
    var touched, hit := Touched(e, span), Hits(local, span.fix, check, lower);
    SpanState(span, touched, hit, local, if !touched then Missed else if hit then Fixed else Attempted)
  }

  /** Something was put in or marked from word `from` up to word `i`. */
  ghost predicate TouchedBefore(e: Edits, from: nat, i: nat) {
    exists t | from <= t < i :: Inserts(e, t) || Marked(e, t)
  }

  lemma TouchedIs(e: Edits, span: Span)
    requires span.wFrom <= span.wTo
    ensures Touched(e, span) <==>
              if span.wFrom == span.wTo then Inserts(e, span.wFrom)
              else TouchedBefore(e, span.wFrom, span.wTo) || Inserts(e, span.wTo)
  {}

  method JudgeSpan(w: seq<string>, e: Edits, span: Span, check: Check, lower: string -> string)
    returns (state: SpanState)
    requires Fits(span, w)
    ensures state == StateOf(w, e, span, check, lower)
  {
    var touched := false;
    for i := span.wFrom to span.wTo
      invariant touched <==> TouchedBefore(e, span.wFrom, i)
    {
      if Inserts(e, i) || Marked(e, i) { touched := true; }
    }
    if Inserts(e, span.wTo) { touched := true; }
    if span.wFrom == span.wTo { touched := Inserts(e, span.wFrom); }
    TouchedIs(e, span);
    var pieces := CollectPieces(w, e, span.wFrom, span.wTo);
    var local := Join(pieces);
    var hit := Hits(local, span.fix, check, lower);
    state := SpanState(span, touched, hit, local, if !touched then Missed else if hit then Fixed else Attempted);
  }

  // ----- Stray edits -----

  function HardOf(spans: seq<Span>): seq<Span> {
    if spans == [] then [] else (if spans[0].soft then [] else [spans[0]]) + HardOf(spans[1..])
  }

  predicate InSpan(hard: seq<Span>, index: int) {
    exists k | 0 <= k < |hard| :: hard[k].wFrom <= index < hard[k].wTo
  }

  predicate InSpanSlot(hard: seq<Span>, slot: int) {
    exists k | 0 <= k < |hard| ::
      if hard[k].wFrom == hard[k].wTo then hard[k].wFrom == slot else hard[k].wFrom < slot < hard[k].wTo
  }

  /** The word's text was actually changed; marking alone does not count. */
  predicate Edited(w: seq<string>, e: Edits, i: int) {
    0 <= i < |w| && Marked(e, i) && i in e.fix && Trim(e.fix[i]) != w[i]
  }

  function StrayEdits(w: seq<string>, e: Edits, hard: seq<Span>): set<StrayEdit> {
    (set i | 0 <= i < |w| && Edited(w, e, i) && !InSpan(hard, i) :: EditAt(i))
    + (set slot | slot in e.ins && Inserts(e, slot) && !InSpanSlot(hard, slot) :: InsertAt(slot))
  }

  predicate Untouched(e: Edits) {
    (forall i | i in e.marked :: !e.marked[i]) && (forall slot | slot in e.ins :: !Inserts(e, slot))
  }

  // ----- The closest variant -----

  function Tolerant(check: Check, lower: string -> string): (string, string) -> bool {
    (a, b) => WordEq(a, b, check, lower)
  }

  function SimTo(built: string, variant: string, check: Check, lower: string -> string): real {
    Sim(Tolerant(check, lower), Words(built), Words(variant))
  }

  /** `k` is the first of the most similar among the first `n` variants. */
  ghost predicate IsClosest(sims: seq<real>, n: nat, k: nat) {
    && k < n <= |sims|
    && (forall t | 0 <= t < n :: sims[t] <= sims[k])
    && (forall t | 0 <= t < k :: sims[t] < sims[k])
  }

  function Sims(built: string, accepted: seq<string>, check: Check, lower: string -> string): (sims: seq<real>)
    ensures |sims| == |accepted|
  {
    seq(|accepted|, t requires 0 <= t < |accepted| => SimTo(built, accepted[t], check, lower))
  }

  function Closest(sims: seq<real>, n: nat): (k: nat)
    requires 0 < n <= |sims|
    ensures k < n
  {
    if n == 1 then 0
    else
      var k := Closest(sims, n - 1);
      if sims[n - 1] > sims[k] then n - 1 else k
  }

  lemma {:induction false} ClosestIs(sims: seq<real>, n: nat)
    requires 0 < n <= |sims|
    ensures IsClosest(sims, n, Closest(sims, n))
  {
    if n > 1 { ClosestIs(sims, n - 1); }
  }

  /** The alignment of the built sentence with a variant. */
  function OpsTo(built: string, variant: string, check: Check, lower: string -> string): seq<Op> {
    Walk(Tolerant(check, lower), Words(built), Words(variant), 0, 0)
  }

  /** Every word of the built sentence matches, at least one of them only by tolerance. */
  predicate TypoOnly(built: string, variant: string, check: Check, lower: string -> string) {
    var a, b := Words(built), Words(variant);
    var ops := OpsTo(built, variant, check, lower);
    && (forall k | 0 <= k < |ops| :: ops[k].Both?)
    && (exists k | 0 <= k < |ops| :: !Identical(ops[k], a, b))
  }

  // ----- The verdict -----

  function States(w: seq<string>, e: Edits, hard: seq<Span>, check: Check, lower: string -> string): (states: seq<SpanState>)
    requires AllFit(hard, w)
    ensures |states| == |hard|
  {
    seq(|hard|, k requires 0 <= k < |hard| => StateOf(w, e, hard[k], check, lower))
  }

  function CountFixed(states: seq<SpanState>): (n: nat)
    ensures n <= |states|
    ensures n == |states| <==> forall k | 0 <= k < |states| :: states[k].outcome == Fixed
  {
    if states == [] then 0 else (if states[0].outcome == Fixed then 1 else 0) + CountFixed(states[1..])
  }

  function FirstVerdict(untouched: bool, exact: bool, typoOnly: bool, hard: nat, fixed: nat,
                        stray: bool, sim: real, near: real): Verdict {
    if untouched then VEmpty
    else if exact then VExact
    else if typoOnly then VTypo
    else if hard > 0 && fixed == hard then (if stray then VStray else VTypo)
    else if fixed > 0 then VPartial
    else if sim >= near then VPartial else VOff
  }

  function VerdictOf(first: Verdict, stray: bool, policy: StrayPolicy): Verdict {
    if (first == VExact || first == VTypo) && stray && policy == Block then VStray else first
  }

  lemma {:induction false} TilesFit(gs: seq<Group>, w: seq<string>, r: seq<string>, i: nat, j: nat, k: nat)
    requires Tiles(gs, w, r, i, j) && k < |gs|
    ensures i <= gs[k].wFrom <= gs[k].wTo <= |w| && j <= gs[k].rFrom <= gs[k].rTo <= |r|
    decreases |gs|
  {
    if k > 0 { TilesFit(gs[1..], w, r, gs[0].wTo, gs[0].rTo, k - 1); }
  }

  lemma SpansFit(item: Item, check: Check, lower: string -> string)
    ensures AllFit(SpansOf(item, check, lower), Words(item.wrong))
  {
    var w, r := Words(item.wrong), KeyWords(item);
    if w != [] && r != [] {
      var gs := GroupsOf(w, r, check, lower);
      SpansArePatch(w, r, check, lower);
      forall k | 0 <= k < |gs| ensures Fits(ToSpan(gs[k], w, r, item.soft), w) { TilesFit(gs, w, r, 0, 0, k); }
    }
  }

  lemma {:induction false} HardFit(spans: seq<Span>, w: seq<string>)
    requires AllFit(spans, w)
    ensures AllFit(HardOf(spans), w)
  {
    if spans != [] { HardFit(spans[1..], w); }
  }

  /** The spans that are mistakes: every count the student sees uses these. */
  function HardSpans(item: Item, check: Check, lower: string -> string): (hard: seq<Span>)
    ensures AllFit(hard, Words(item.wrong))
  {
    var spans := SpansOf(item, check, lower);
    SpansFit(item, check, lower);
    HardFit(spans, Words(item.wrong));
    HardOf(spans)
  }

  predicate Exact(built: string, accepted: seq<string>, check: Check, lower: string -> string) {
    exists t | 0 <= t < |accepted| :: Norm(accepted[t], check, lower) == Norm(built, check, lower)
  }

  /** The judgement once the sentence is built, the spans are derived and the closest variant is
      known. */
  function Weigh(check: Check, w: seq<string>, e: Edits, hard: seq<Span>, built: string, accepted: seq<string>,
                 ref: string, sim: real, states: seq<SpanState>, lower: string -> string): Judgement {
    var exact := Exact(built, accepted, check, lower);
    var stray := StrayEdits(w, e, hard);
    var fixedCount := CountFixed(states);
    var first := FirstVerdict(Untouched(e), exact, TypoOnly(built, ref, check, lower),
                              |hard|, fixedCount, stray != {}, sim, check.near);
    Judgement(VerdictOf(first, stray != {}, check.strayEdits), sim, OpsTo(built, ref, check, lower), ref, states, fixedCount, |hard|, built, stray, exact)
  }

  function Judge(check: Check, item: Item, e: Edits, lower: string -> string): Judgement {
    var w, accepted, built := Words(item.wrong), Variants(item), Built(item, e);
    var hard := HardSpans(item, check, lower);
    if accepted == [] then Judgement(VNoRef, 0.0, [], "", [], 0, |hard|, built, {}, false)
    else
      var sims := Sims(built, accepted, check, lower);
      var k := Closest(sims, |sims|);
      Weigh(check, w, e, hard, built, accepted, accepted[k], sims[k], States(w, e, hard, check, lower), lower)
  }

  method JudgeSpans(w: seq<string>, e: Edits, hard: seq<Span>, check: Check, lower: string -> string)
    returns (states: seq<SpanState>)
    requires AllFit(hard, w)
    ensures states == States(w, e, hard, check, lower)
  {
    states := [];
    ghost var all := States(w, e, hard, check, lower);
    for k := 0 to |hard|
      invariant states == all[..k]
    {
      var state := JudgeSpan(w, e, hard[k], check, lower);
      Prefix(all, k);
      states := states + [state];
    }
    Prefix(all, |all|);
  }

  lemma Prefix<T>(s: seq<T>, k: nat)
    requires k <= |s|
    ensures if k == |s| then s[..k] == s else s[..k + 1] == s[..k] + [s[k]]
  {}

  method AlignTo(built: string, variant: string, check: Check, lower: string -> string) returns (sim: real)
    ensures sim == SimTo(built, variant, check, lower)
  {
    var a, b := Words(built), Words(variant);
    sim := Similarity(Tolerant(check, lower), a, b);
  }

  /** One alignment per accepted variant. */
  method AlignAll(built: string, accepted: seq<string>, check: Check, lower: string -> string) returns (sims: seq<real>)
    ensures sims == Sims(built, accepted, check, lower)
  {
    sims := [];
    ghost var all := Sims(built, accepted, check, lower);
    for t := 0 to |accepted|
      invariant sims == all[..t]
    {
      var sim := AlignTo(built, accepted[t], check, lower);
      Prefix(all, t);
      sims := sims + [sim];
    }
    Prefix(all, |all|);
  }

  method BestOf(sims: seq<real>) returns (best: nat)
    requires sims != []
    ensures IsClosest(sims, |sims|, best) && best == Closest(sims, |sims|)
  {
    best := 0;
    for t := 1 to |sims|
      invariant IsClosest(sims, t, best)
    {
      if sims[t] > sims[best] { best := t; }
    }
    ClosestIs(sims, |sims|);
    OneClosest(sims, best, Closest(sims, |sims|));
  }

  lemma OneClosest(sims: seq<real>, k: nat, l: nat)
    requires IsClosest(sims, |sims|, k) && IsClosest(sims, |sims|, l)
    ensures k == l
  {
    assert sims[k] == sims[l];
  }

  /** The judgement with the loops of the source. */
  method JudgeItem(check: Check, item: Item, e: Edits, lower: string -> string) returns (j: Judgement)
    ensures j == Judge(check, item, e, lower)
  {
    var w, accepted := Words(item.wrong), Variants(item);
    var pieces := CollectPieces(w, e, 0, |w|);
    var spans := DeriveSpans(item, check, lower);
    var hard := HardOf(spans);
    assert hard == HardSpans(item, check, lower);
    var built := Join(pieces);
    if accepted == [] { return Judgement(VNoRef, 0.0, [], "", [], 0, |hard|, built, {}, false); }
    var sims := AlignAll(built, accepted, check, lower);
    var best := BestOf(sims);
    var states := JudgeSpans(w, e, hard, check, lower);
    j := Weigh(check, w, e, hard, built, accepted, accepted[best], sims[best], states, lower);
  }

  /** Where the answer goes: the automatic check can only approve. */
  function Route(check: Check, j: Judgement): Routing {
    if !check.on then Teacher
    else if j.verdict != VExact then Teacher
    else if check.requireAllSpans && j.spanCount > 0 && j.fixedCount < j.spanCount then Teacher
    else if j.stray != {} && check.strayEdits != Ignore then Teacher
    else if check.exactPass then Pass else Teacher
  }
}
