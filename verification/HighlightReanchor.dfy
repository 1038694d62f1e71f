/** Editing the passage under existing marks: every mark moves with its words or waits as an
    orphan, and an orphan can be put back. */
module HighlightReanchor {
  import opened Options
  import opened Sequences
  import opened Text
  import opened Tokens
  import opened Coordinates
  import opened Surfaces
  import opened MarkEdits

  datatype Orphan = Orphan(id: string, qid: string, surface: string, why: string)
  datatype Content = Content(text: string, questions: seq<Question>, orphans: seq<Orphan>)

  // ----- The edited stretch -----

  /** How many characters from `k` on agree. */
  function CommonPrefix(a: string, b: string, k: nat): (n: nat)
    requires k <= |a| && k <= |b|
    ensures k <= n <= |a| && n <= |b| && forall t | k <= t < n :: a[t] == b[t]
    decreases |a| - k
  {
    if k < |a| && k < |b| && a[k] == b[k] then CommonPrefix(a, b, k + 1) else k
  }

  /** How many characters agree from the back, `k` of them already counted, at most `limit`. */
  function CommonSuffix(a: string, b: string, limit: nat, k: nat): (n: nat)
    requires k <= limit <= |a| && limit <= |b|
    ensures k <= n <= limit && forall t | k <= t < n :: SameFromEnd(a, b, t)
    decreases limit - k
  {
    if k < limit && SameFromEnd(a, b, k) then CommonSuffix(a, b, limit, k + 1) else k
  }

  /** `[from, oldTo)` of the old text was replaced; what follows moved by `delta`. */
  datatype Region = Region(from: nat, oldTo: nat, delta: int)

  function RegionOf(a: string, b: string): (e: Region)
    ensures e.from <= |a| && e.from <= |b| && e.from <= e.oldTo <= |a| && e.delta == |b| - |a|
  {
    var from := CommonPrefix(a, b, 0);
    var max := if |a| <= |b| then |a| else |b|;
    Region(from, |a| - CommonSuffix(a, b, max - from, 0), |b| - |a|)
  }

  method EditRegion(a: string, b: string) returns (e: Region)
    ensures e == RegionOf(a, b)
  {
    var from: nat := 0;
    var max := if |a| <= |b| then |a| else |b|;
    while from < max && a[from] == b[from]
      invariant from <= max && CommonPrefix(a, b, from) == CommonPrefix(a, b, 0)
    {
      from := from + 1;
    }
    var suffix: nat := 0;
    while suffix < max - from && a[|a| - 1 - suffix] == b[|b| - 1 - suffix]
      invariant suffix <= max - from
      invariant CommonSuffix(a, b, max - from, suffix) == CommonSuffix(a, b, max - from, 0)
    {
      suffix := suffix + 1;
    }
    e := Region(from, |a| - suffix, |b| - |a|);
  }

  // ----- Occurrences of some words -----

  predicate MatchAt(abc: Alphabet, ts: seq<Token>, words: seq<string>, i: nat) {
    i + |words| <= |ts| && forall k | 0 <= k < |words| :: abc.lower(ts[i + k].w) == words[k]
  }

  function RunsFrom(abc: Alphabet, ts: seq<Token>, words: seq<string>, i: nat): seq<Run>
    requires words != []
    decreases |ts| - i
  {
    if i + |words| > |ts| then []
    else (if MatchAt(abc, ts, words, i) then [Run(i, i + |words| - 1)] else []) + RunsFrom(abc, ts, words, i + 1)
  }

  function RunsOf(abc: Alphabet, ts: seq<Token>, words: seq<string>): seq<Run> {
    if words == [] then [] else RunsFrom(abc, ts, words, 0)
  }

  method RunsOfWords(abc: Alphabet, ts: seq<Token>, words: seq<string>) returns (out: seq<Run>)
    ensures out == RunsOf(abc, ts, words)
  {
    out := [];
    if words == [] { return; }
    var i: nat := 0;
    while i + |words| <= |ts|
      invariant RunsOf(abc, ts, words) == out + RunsFrom(abc, ts, words, i)
      decreases |ts| - i
    {
      var ok := true;
      var k: nat := 0;
      while k < |words|
        invariant k <= |words|
        invariant ok ==> forall l | 0 <= l < k :: abc.lower(ts[i + l].w) == words[l]
        invariant !ok ==> !MatchAt(abc, ts, words, i)
      {
        if abc.lower(ts[i + k].w) != words[k] {
          ok := false;
          break;
        }
        k := k + 1;
      }
      ghost var rest := RunsFrom(abc, ts, words, i + 1);
      if ok {
        Reassociate(out, Run(i, i + |words| - 1), rest);
        out := out + [Run(i, i + |words| - 1)];
      } else {
        assert [] + rest == rest;
      }
      i := i + 1;
    }
  }

  predicate Is(abc: Alphabet, ts: seq<Token>, words: seq<string>, r: Run) {
    InTokens(r, ts) && RunWords(abc, ts, r) == words
  }

  /** The words stand somewhere in the text. */
  ghost predicate Occurs(abc: Alphabet, ts: seq<Token>, words: seq<string>) {
    exists r :: Is(abc, ts, words, r)
  }

  lemma IsMatch(abc: Alphabet, ts: seq<Token>, words: seq<string>, r: Run)
    requires words != []
    ensures Is(abc, ts, words, r) <==> MatchAt(abc, ts, words, r.t0) && r.t1 == r.t0 + |words| - 1
  {
    if Is(abc, ts, words, r) {
      forall k | 0 <= k < |words| ensures abc.lower(ts[r.t0 + k].w) == words[k] {
        assert RunWords(abc, ts, r)[k] == words[k];
      }
    }
    if MatchAt(abc, ts, words, r.t0) && r.t1 == r.t0 + |words| - 1 {
      assert RunWords(abc, ts, r) == words;
    }
  }

  lemma {:induction false} RunsFromIs(abc: Alphabet, ts: seq<Token>, words: seq<string>, i: nat, r: Run)
    requires words != []
    ensures r in RunsFrom(abc, ts, words, i) <==> i <= r.t0 && Is(abc, ts, words, r)
    decreases |ts| - i
  {
    IsMatch(abc, ts, words, r);
    if i + |words| <= |ts| { RunsFromIs(abc, ts, words, i + 1, r); }
  }

  /** The listed runs are exactly the places where the words stand. */
  lemma RunsOfIs(abc: Alphabet, ts: seq<Token>, words: seq<string>)
    requires words != []
    ensures forall r :: r in RunsOf(abc, ts, words) <==> Is(abc, ts, words, r)
    ensures RunsOf(abc, ts, words) == [] <==> !Occurs(abc, ts, words)
  {
    forall r ensures r in RunsOf(abc, ts, words) <==> Is(abc, ts, words, r) { RunsFromIs(abc, ts, words, 0, r); }
    if RunsOf(abc, ts, words) != [] {
      assert Is(abc, ts, words, RunsOf(abc, ts, words)[0]);
    }
  }

  /** How often the words stand in the text before token `n`. */
  function TimesBefore(abc: Alphabet, ts: seq<Token>, words: seq<string>, n: nat): nat {
    if n == 0 then 0 else TimesBefore(abc, ts, words, n - 1) + if MatchAt(abc, ts, words, n - 1) then 1 else 0
  }

  /** The `k`-th listed run is the one with `k` occurrences before it. */
  lemma {:induction false} RunsInOrder(abc: Alphabet, ts: seq<Token>, words: seq<string>, i: nat, k: nat)
    requires words != [] && k < |RunsFrom(abc, ts, words, i)|
    ensures TimesBefore(abc, ts, words, RunsFrom(abc, ts, words, i)[k].t0) == TimesBefore(abc, ts, words, i) + k
    decreases |ts| - i
  {
    if MatchAt(abc, ts, words, i) {
      if k > 0 { RunsInOrder(abc, ts, words, i + 1, k - 1); }
    } else {
      RunsInOrder(abc, ts, words, i + 1, k);
    }
  }

  lemma {:induction false} TimesInAll(abc: Alphabet, ts: seq<Token>, words: seq<string>, i: nat)
    requires words != [] && i <= |ts|
    ensures TimesBefore(abc, ts, words, |ts|) == TimesBefore(abc, ts, words, i) + |RunsFrom(abc, ts, words, i)|
    decreases |ts| - i
  {
    if i < |ts| {
      TimesInAll(abc, ts, words, i + 1);
      if i + |words| > |ts| { assert !MatchAt(abc, ts, words, i) && RunsFrom(abc, ts, words, i + 1) == []; }
    }
  }

  // ----- Where one mark goes -----

  /** One text edit, with the tokens of both texts. */
  datatype Move = Move(abc: Alphabet, oldText: string, newText: string, oldTs: seq<Token>, newTs: seq<Token>, edit: Region)

  function MoveOf(abc: Alphabet, oldText: string, newText: string): Move {
    Move(abc, oldText, newText, Tokenize(abc, oldText), Tokenize(abc, newText), RegionOf(oldText, newText))
  }

  predicate OnEdges(ts: seq<Token>, start: int, end: int) {
    && (exists k | 0 <= k < |ts| :: ts[k].s == start)
    && (exists k | 0 <= k < |ts| :: ts[k].e == end)
  }

  function MovedTo(span: Span, start: int): Span {
    span.(start := start, end := start + (span.end - span.start))
  }

  function ShiftTo(m: Move, span: Span, start: int): Option<Span> {
    var to := MovedTo(span, start);
    if !OnEdges(m.newTs, to.start, to.end) then None
    else
      var oldRun, newRun := ToRun(m.oldTs, RangeOf(span)), ToRun(m.newTs, RangeOf(to));
      if oldRun.None? || newRun.None? then None
      else if Join(RunWords(m.abc, m.oldTs, oldRun.value)) != Join(RunWords(m.abc, m.newTs, newRun.value)) then None
      else Some(to)
  }

  predicate Outside(edit: Region, span: Span) { span.end <= edit.from || span.start >= edit.oldTo }

  /** Where a span outside the edit goes with the text around it. */
  function ShiftedStart(edit: Region, span: Span): int {
    if span.end <= edit.from then span.start else span.start + edit.delta
  }

  /** First pass: a span outside the edit moves with it, if its words are still there. */
  function Shifted(m: Move, span: Span): Option<Span> {
    if Outside(m.edit, span) then ShiftTo(m, span, ShiftedStart(m.edit, span)) else None
  }

  /** Which of the runs starts at `t0`; the first one when none does. */
  function OrdinalFrom(runs: seq<Run>, t0: nat, k: nat): nat
    requires k <= |runs|
    decreases |runs| - k
  {
    if k == |runs| then 0 else if runs[k].t0 == t0 then k else OrdinalFrom(runs, t0, k + 1)
  }

  /** Second pass: the same words at the same occurrence, or the last one there is. */
  function Land(m: Move, span: Span): Option<Span> {
    match ToRun(m.oldTs, RangeOf(span))
    case None => None
    case Some(oldRun) =>
      var words := RunWords(m.abc, m.oldTs, oldRun);
      var ordinal := OrdinalFrom(RunsOf(m.abc, m.oldTs, words), oldRun.t0, 0);
      var runs := RunsOf(m.abc, m.newTs, words);
      if runs == [] then None
      else
        var range := ToRange(m.newTs, runs[if ordinal < |runs| then ordinal else |runs| - 1]);
        Some(span.(start := range.start, end := range.end))
  }

  function Placed(m: Move, span: Span): Option<Span> {
    var shifted := Shifted(m, span);
    if shifted.Some? then shifted else Land(m, span)
  }

  /** A JavaScript slice: negative offsets count from the end, others are cut to the text. */
  function Slice(s: string, start: int, end: int): string {
    var a := if start < 0 then start + |s| else start;
    var b := if end < 0 then end + |s| else end;
    var from := if a < 0 then 0 else if a > |s| then |s| else a;
    var to := if b < from then from else if b > |s| then |s| else b;
    s[from..to]
  }

  function SurfaceOf(m: Move, span: Span): string {
    match ToRun(m.oldTs, RangeOf(span))
    case None => Trim(Slice(m.oldText, span.start, span.end))
    case Some(r) => Surface(m.oldText, m.oldTs, r)
  }

  function OrphanOf(m: Move, qid: string, span: Span): Orphan {
    Orphan(span.id, qid, SurfaceOf(m, span), span.why)
  }

  // ----- Re-anchoring the document -----

  /** Where each mark goes, and what becomes of one that goes nowhere. */
  datatype Rule = Rule(place: Span -> Option<Span>, lose: (string, Span) -> Orphan)

  function RuleOf(m: Move): Rule {
    Rule((s: Span) => Placed(m, s), (qid: string, s: Span) => OrphanOf(m, qid, s))
  }

  /** Of the first `n` spans, those that found a place. */
  function Survivors(rule: Rule, spans: seq<Span>, n: nat): seq<Span>
    requires n <= |spans|
  {
    if n == 0 then []
    else
      var landed := rule.place(spans[n - 1]);
      var before := Survivors(rule, spans, n - 1);
      if landed.Some? then before + [landed.value] else before
  }

  function Losses(rule: Rule, q: Question, n: nat): seq<Orphan>
    requires n <= |q.spans|
  {
    if n == 0 then []
    else
      var before := Losses(rule, q, n - 1);
      if rule.place(q.spans[n - 1]).None? then before + [rule.lose(q.id, q.spans[n - 1])] else before
  }

  function MovedQuestion(rule: Rule, q: Question): Question {
    q.(spans := SortSpans(Survivors(rule, q.spans, |q.spans|)))
  }

  function Mover(rule: Rule): Question -> Question { (q: Question) => MovedQuestion(rule, q) }

  function Loser(rule: Rule): Question -> seq<Orphan> { (q: Question) => Losses(rule, q, |q.spans|) }

  function Rewritten(rule: Rule, c: Content, newText: string): Content {
    Content(newText, Each(Mover(rule), c.questions, |c.questions|),
            c.orphans + Gather(Loser(rule), c.questions, |c.questions|))
  }

  function Reanchor(abc: Alphabet, c: Content, newText: string): Content {
    Rewritten(RuleOf(MoveOf(abc, c.text, newText)), c, newText)
  }

  method ReanchorContent(abc: Alphabet, c: Content, newText: string) returns (out: Content)
    ensures out == Reanchor(abc, c, newText)
  {
    var oldTs, newTs := Tokenize(abc, c.text), Tokenize(abc, newText);
    var edit := EditRegion(c.text, newText);
    out := Rewrite(RuleOf(Move(abc, c.text, newText, oldTs, newTs, edit)), c, newText);
  }

  method Rewrite(rule: Rule, c: Content, newText: string) returns (out: Content)
    ensures out == Rewritten(rule, c, newText)
  {
    var orphans := c.orphans;
    var questions: seq<Question> := [];
    for n := 0 to |c.questions|
      invariant questions == Each(Mover(rule), c.questions, n)
      invariant orphans == c.orphans + Gather(Loser(rule), c.questions, n)
    {
      var q := c.questions[n];
      ghost var known := orphans;
      var spans: seq<Span> := [];
      for k := 0 to |q.spans|
        invariant spans == Survivors(rule, q.spans, k)
        invariant orphans == known + Losses(rule, q, k)
      {
        var landed := rule.place(q.spans[k]);
        if landed.Some? {
          spans := spans + [landed.value];
        } else {
          Assoc(known, Losses(rule, q, k), [rule.lose(q.id, q.spans[k])]);
          orphans := orphans + [rule.lose(q.id, q.spans[k])];
        }
      }
      RewriteStep(rule, c, n, questions, spans, known, orphans);
      questions := questions + [q.(spans := SortSpans(spans))];
    }
    out := Content(newText, questions, orphans);
  }

  lemma RewriteStep(rule: Rule, c: Content, n: nat, questions: seq<Question>, spans: seq<Span>, known: seq<Orphan>, orphans: seq<Orphan>)
    requires n < |c.questions| && spans == Survivors(rule, c.questions[n].spans, |c.questions[n].spans|)
    requires questions == Each(Mover(rule), c.questions, n) && known == c.orphans + Gather(Loser(rule), c.questions, n)
    requires orphans == known + Losses(rule, c.questions[n], |c.questions[n].spans|)
    ensures questions + [c.questions[n].(spans := SortSpans(spans))] == Each(Mover(rule), c.questions, n + 1)
    ensures orphans == c.orphans + Gather(Loser(rule), c.questions, n + 1)
  {
    var q := c.questions[n];
    assert Mover(rule)(q) == q.(spans := SortSpans(spans));
    Assoc(c.orphans, Gather(Loser(rule), c.questions, n), Losses(rule, q, |q.spans|));
  }

  /** How many marks the edit would orphan. */
  function PreviewLost(abc: Alphabet, c: Content, newText: string): int {
    |Reanchor(abc, c, newText).orphans| - |c.orphans|
  }

  // ----- Putting an orphan back -----

  function FirstRunOf(abc: Alphabet, ts: seq<Token>, phrase: string): Option<Run> {
    var runs := RunsOf(abc, ts, LowerAll(abc, WordList(abc, phrase)));
    if runs == [] then None else Some(runs[0])
  }

  function FindOrphan(orphans: seq<Orphan>, id: string, k: nat): (r: Option<Orphan>)
    requires k <= |orphans|
    ensures r.Some? ==> r.value in orphans && r.value.id == id
    ensures r.None? ==> forall t | k <= t < |orphans| :: orphans[t].id != id
    decreases |orphans| - k
  {
    if k == |orphans| then None else if orphans[k].id == id then Some(orphans[k]) else FindOrphan(orphans, id, k + 1)
  }

  function OrphanId(): Orphan -> string { (o: Orphan) => o.id }

  function WithSpan(q: Question, qid: string, span: Span): Question {
    if q.id == qid then q.(spans := SortSpans(q.spans + [span])) else q
  }

  function AddSpan(qs: seq<Question>, qid: string, span: Span): (out: seq<Question>)
    ensures |out| == |qs| && forall k | 0 <= k < |qs| :: out[k] == WithSpan(qs[k], qid, span)
  {
    if qs == [] then [] else AddSpan(qs[..|qs| - 1], qid, span) + [WithSpan(qs[|qs| - 1], qid, span)]
  }

  function PutBackSpan(abc: Alphabet, text: string, o: Orphan): Option<Span> {
    var ts := Tokenize(abc, text);
    match FirstRunOf(abc, ts, o.surface)
    case None => None
    case Some(run) => Some(Span(o.id, ToRange(ts, run).start, ToRange(ts, run).end, o.why))
  }

  function PutBack(abc: Alphabet, c: Content, id: string): Content {
    var found := FindOrphan(c.orphans, id, 0);
    if found.None? || !(exists k | 0 <= k < |c.questions| :: c.questions[k].id == found.value.qid) then c
    else
      match PutBackSpan(abc, c.text, found.value)
      case None => c
      case Some(span) =>
        c.(orphans := Others(c.orphans, OrphanId(), id), questions := AddSpan(c.questions, found.value.qid, span))
  }

  function CanPutBack(abc: Alphabet, text: string, o: Orphan): bool {
    FirstRunOf(abc, Tokenize(abc, text), o.surface).Some?
  }
}
