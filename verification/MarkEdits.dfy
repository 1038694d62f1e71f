/** The author's mark edits over a fixed passage, and what every sequence of them keeps. */
module MarkEdits {
  import opened Options
  import opened Tokens
  import opened Sorting
  import opened Coordinates

  datatype Unit = Word | Phrase
  datatype Span = Span(id: string, start: int, end: int, why: string)
  datatype Question = Question(id: string, unit: Unit, spans: seq<Span>)
  datatype Doc = Doc(questions: seq<Question>)

  function RangeOf(s: Span): Range { Range(s.start, s.end) }

  function SpanKey(s: Span): (int, int) { (s.start, s.end) }

  function SortSpans(spans: seq<Span>): seq<Span> { SortBy(spans, SpanKey) }

  function RunOf(p: Passage, s: Span): Option<Run> { ToRun(p.ts, RangeOf(s)) }

  function WithQuestion(doc: Doc, qid: string, f: Question -> Question): Doc {
    Doc(seq(|doc.questions|, k requires 0 <= k < |doc.questions| =>
              if doc.questions[k].id == qid then f(doc.questions[k]) else doc.questions[k]))
  }

  function FindQuestion(doc: Doc, qid: string, k: nat): (r: Option<Question>)
    requires k <= |doc.questions|
    ensures r.Some? ==> r.value in doc.questions && r.value.id == qid
    decreases |doc.questions| - k
  {
    if k == |doc.questions| then None
    else if doc.questions[k].id == qid then Some(doc.questions[k])
    else FindQuestion(doc, qid, k + 1)
  }

  // ----- The edits -----

  function Without(spans: seq<Span>, id: string): seq<Span> {
    if spans == [] then []
    else (if spans[0].id == id then [] else [spans[0]]) + Without(spans[1..], id)
  }

  /** The first span over token `t`. */
  function Hit(p: Passage, spans: seq<Span>, t: nat): (r: Option<Span>)
    ensures r.Some? ==> r.value in spans && RunOf(p, r.value).Some?
                        && RunOf(p, r.value).value.t0 <= t <= RunOf(p, r.value).value.t1
    ensures r.None? ==> forall s | s in spans && RunOf(p, s).Some? :: !(RunOf(p, s).value.t0 <= t <= RunOf(p, s).value.t1)
  {
    if spans == [] then None
    else
      var r := RunOf(p, spans[0]);
      if r.Some? && r.value.t0 <= t <= r.value.t1 then Some(spans[0]) else Hit(p, spans[1..], t)
  }

  predicate Clear(p: Passage, s: Span, run: Run) {
    var r := RunOf(p, s);
    r.None? || r.value.t1 < run.t0 || r.value.t0 > run.t1
  }

  /** The spans that share no token with `run`. */
  function Kept(p: Passage, spans: seq<Span>, run: Run): seq<Span> {
    if spans == [] then []
    else (if Clear(p, spans[0], run) then [spans[0]] else []) + Kept(p, spans[1..], run)
  }

  function ToggleSpans(p: Passage, spans: seq<Span>, run: Run, newId: string): seq<Span> {
    var hit := if run.t0 == run.t1 then Hit(p, spans, run.t0) else None;
    if hit.Some? then Without(spans, hit.value.id)
    else
      var range := ToRange(p.ts, run);
      SortSpans(Kept(p, spans, run) + [Span(newId, range.start, range.end, "")])
  }

  /** The tokens a press at `origin` released at `end` reaches. */
  function Reach(p: Passage, unit: Unit, origin: nat, end: int): Run
    requires origin < |p.para|
  {
    Clamp(p.para, origin, if unit == Word || !(0 <= end < |p.para|) then origin else end)
  }

  /** A click or a drag on the canvas. */
  function ToggleMark(p: Passage, doc: Doc, qid: string, origin: int, end: int, newId: string): Doc
    requires |p.para| == |p.ts|
  {
    match FindQuestion(doc, qid, 0)
    case None => doc
    case Some(q) =>
      if !(0 <= origin < |p.ts|) then doc
      else
        var run := Reach(p, q.unit, origin, end);
        WithQuestion(doc, qid, _ => q.(spans := ToggleSpans(p, q.spans, run, newId)))
  }

  function FindSpan(spans: seq<Span>, id: string): (r: Option<Span>)
    ensures r.Some? ==> r.value in spans && r.value.id == id
  {
    if spans == [] then None else if spans[0].id == id then Some(spans[0]) else FindSpan(spans[1..], id)
  }

  predicate TakenAt(p: Passage, spans: seq<Span>, id: string, t: nat) {
    exists s | s in spans :: s.id != id && RunOf(p, s).Some? && RunOf(p, s).value.t0 <= t <= RunOf(p, s).value.t1
  }

  function Replace(spans: seq<Span>, id: string, next: Span): seq<Span> {
    seq(|spans|, k requires 0 <= k < |spans| => if spans[k].id == id then next else spans[k])
  }

  /** The mark grown or shrunk at its far end by one token, or nothing when that is not allowed. */
  function Resized(p: Passage, q: Question, id: string, grow: bool): Option<Span>
    requires |p.para| == |p.ts|
  {
    var span := FindSpan(q.spans, id);
    if q.unit != Phrase || span.None? || RunOf(p, span.value).None? then None
    else
      var run := RunOf(p, span.value).value;
      var t1 := if grow then run.t1 + 1 else run.t1 - 1;
      if t1 < run.t0 || t1 >= |p.ts| || run.t0 >= |p.ts| || p.para[t1] != p.para[run.t0] || TakenAt(p, q.spans, id, t1) then None
      else
        var range := ToRange(p.ts, Run(run.t0, t1));
        Some(span.value.(start := range.start, end := range.end))
  }

  function ResizeMark(p: Passage, doc: Doc, qid: string, id: string, grow: bool): Doc
    requires |p.para| == |p.ts|
  {
    match FindQuestion(doc, qid, 0)
    case None => doc
    case Some(q) =>
      match Resized(p, q, id, grow)
      case None => doc
      case Some(next) => WithQuestion(doc, qid, (x: Question) => x.(spans := SortSpans(Replace(x.spans, id, next))))
  }

  function RemoveSpan(doc: Doc, qid: string, id: string): Doc {
    WithQuestion(doc, qid, (x: Question) => x.(spans := Without(x.spans, id)))
  }

  function ClearMarks(doc: Doc, qid: string): Doc { WithQuestion(doc, qid, (x: Question) => x.(spans := [])) }

  function SetUnit(doc: Doc, qid: string, unit: Unit): Doc { WithQuestion(doc, qid, (x: Question) => x.(unit := unit)) }

  datatype Edit =
    | Toggle(qid: string, origin: int, end: int, newId: string)
    | Resize(qid: string, id: string, grow: bool)
    | Remove(qid: string, id: string)
    | ClearAll(qid: string)
    | Switch(qid: string, unit: Unit)

  function Apply(p: Passage, doc: Doc, edit: Edit): Doc
    requires |p.para| == |p.ts|
  {
    match edit
    case Toggle(qid, origin, end, newId) => ToggleMark(p, doc, qid, origin, end, newId)
    case Resize(qid, id, grow) => ResizeMark(p, doc, qid, id, grow)
    case Remove(qid, id) => RemoveSpan(doc, qid, id)
    case ClearAll(qid) => ClearMarks(doc, qid)
    case Switch(qid, unit) => SetUnit(doc, qid, unit)
  }

  function ApplyAll(p: Passage, doc: Doc, edits: seq<Edit>): Doc
    requires |p.para| == |p.ts|
  {
    if edits == [] then doc else Apply(p, ApplyAll(p, doc, edits[..|edits| - 1]), edits[|edits| - 1])
  }

  // ----- What every edit keeps -----

  /** A span on token edges whose tokens lie in one paragraph. */
  ghost predicate Anchored(p: Passage, s: Span) {
    && OnTokens(p.ts, RangeOf(s))
    && RunOf(p, s).Some? && OneParagraph(p.para, RunOf(p, s).value)
    && ToRange(p.ts, RunOf(p, s).value) == RangeOf(s)
  }

  /** The runs of `a` end before those of `b` begin, and the two have ids of their own. */
  ghost predicate Before(p: Passage, a: Span, b: Span) {
    && RunOf(p, a).Some? && RunOf(p, b).Some? && OneParagraph(p.para, RunOf(p, a).value)
    && RunOf(p, a).value.t1 < RunOf(p, b).value.t0
  }

  ghost function AnchoredIn(p: Passage): Span -> bool { s => Anchored(p, s) }
  ghost function BeforeIn(p: Passage): (Span, Span) -> bool { (s, t) => Before(p, s, t) }
  ghost function OtherId(): (Span, Span) -> bool { (s: Span, t: Span) => s.id != t.id }
  ghost function AnyId(): Span -> bool { (s: Span) => true }

  /** Anchored spans in text order that share no token, with ids of their own. */
  ghost predicate GoodSpans(p: Passage, spans: seq<Span>) {
    Chain(spans, AnchoredIn(p), BeforeIn(p)) && Chain(spans, AnyId(), OtherId())
  }

  ghost predicate GoodDoc(p: Passage, doc: Doc) {
    && (forall k | 0 <= k < |doc.questions| :: GoodSpans(p, doc.questions[k].spans))
    && (forall k, l | 0 <= k < l < |doc.questions| :: doc.questions[k].id != doc.questions[l].id)
  }

  /** Ids are generated at random; a new one is taken to be unused in its question. */
  ghost predicate FreshId(doc: Doc, edit: Edit) {
    edit.Toggle? ==> forall k | 0 <= k < |doc.questions| ::
                       forall s | s in doc.questions[k].spans :: s.id != edit.newId
  }

  lemma RunIsAnchored(p: Passage, run: Run, s: Span)
    requires ValidPassage(p) && OneParagraph(p.para, run) && RangeOf(s) == ToRange(p.ts, run)
    ensures Anchored(p, s) && RunOf(p, s) == Some(run)
  {
    RunRoundTrip(p.ts, p.length, run);
    assert p.ts[run.t0].s == s.start && p.ts[run.t1].e == s.end;
  }

  /** Text order is the order the comparator sorts by. */
  lemma BeforeIsSorted(p: Passage, a: Span, b: Span)
    requires ValidPassage(p) && Anchored(p, a) && Anchored(p, b)
    ensures Before(p, a, b) ==> a.start < b.start
  {
    TokenOrder(p.ts, p.length, RunOf(p, a).value.t0, RunOf(p, b).value.t0);
  }

  lemma KeysFollow(p: Passage)
    requires ValidPassage(p)
    ensures forall y, z | AnchoredIn(p)(y) && AnchoredIn(p)(z) && BeforeIn(p)(y, z) ::
              Leq(SpanKey(y), SpanKey(z)) && !Leq(SpanKey(z), SpanKey(y))
    ensures forall y, z, w | BeforeIn(p)(y, z) && BeforeIn(p)(z, w) :: BeforeIn(p)(y, w)
  {
    forall y, z | AnchoredIn(p)(y) && AnchoredIn(p)(z) && BeforeIn(p)(y, z)
      ensures Leq(SpanKey(y), SpanKey(z)) && !Leq(SpanKey(z), SpanKey(y))
    {
      BeforeIsSorted(p, y, z);
    }
    forall y, z, w | BeforeIn(p)(y, z) && BeforeIn(p)(z, w) ensures BeforeIn(p)(y, w) { BeforeTransitive(p, y, z, w); }
  }

  lemma BeforeTransitive(p: Passage, y: Span, z: Span, w: Span)
    requires Before(p, y, z) && Before(p, z, w)
    ensures Before(p, y, w)
  {}

  lemma GoodIsSorted(p: Passage, spans: seq<Span>)
    requires ValidPassage(p) && GoodSpans(p, spans)
    ensures SortSpans(spans) == spans
  {
    KeysFollow(p);
    ChainSorted(spans, SpanKey, AnchoredIn(p), BeforeIn(p));
  }

  /** Leaving spans out keeps the rest in order. */
  lemma {:induction false} SubChain<T(!new)>(x: T, rest: seq<T>, fewer: seq<T>, keep: bool, ok: T -> bool, rel: (T, T) -> bool)
    requires Chain([x] + rest, ok, rel) && Chain(fewer, ok, rel) && forall y | y in fewer :: y in rest
    ensures Chain((if keep then [x] else []) + fewer, ok, rel)
    ensures Chain(rest, ok, rel)
  {
    ChainParts([x], rest, ok, rel);
    if keep { ChainConcat([x], fewer, ok, rel); } else { assert [] + fewer == fewer; }
  }

  lemma {:induction false} WithoutIs(spans: seq<Span>, id: string, ok: Span -> bool, rel: (Span, Span) -> bool)
    requires Chain(spans, ok, rel)
    ensures Chain(Without(spans, id), ok, rel)
    ensures forall s :: s in Without(spans, id) <==> s in spans && s.id != id
  {
    if spans != [] {
      assert spans == [spans[0]] + spans[1..];
      ChainParts([spans[0]], spans[1..], ok, rel);
      WithoutIs(spans[1..], id, ok, rel);
      SubChain(spans[0], spans[1..], Without(spans[1..], id), spans[0].id != id, ok, rel);
    }
  }

  lemma {:induction false} KeptIs(p: Passage, spans: seq<Span>, run: Run, ok: Span -> bool, rel: (Span, Span) -> bool)
    requires Chain(spans, ok, rel)
    ensures Chain(Kept(p, spans, run), ok, rel)
    ensures forall s :: s in Kept(p, spans, run) <==> s in spans && Clear(p, s, run)
  {
    if spans != [] {
      assert spans == [spans[0]] + spans[1..];
      ChainParts([spans[0]], spans[1..], ok, rel);
      KeptIs(p, spans[1..], run, ok, rel);
      SubChain(spans[0], spans[1..], Kept(p, spans[1..], run), Clear(p, spans[0], run), ok, rel);
    }
  }

  /** A new span clear of all the others goes to its place. */
  lemma InsertGood(p: Passage, x: Span, spans: seq<Span>)
    requires ValidPassage(p) && GoodSpans(p, spans) && Anchored(p, x)
    requires forall s | s in spans :: s.id != x.id && (Before(p, s, x) || Before(p, x, s))
    ensures GoodSpans(p, SortSpans(spans + [x]))
    ensures forall s :: s in SortSpans(spans + [x]) <==> s in spans || s == x
  {
    GoodIsSorted(p, spans);
    var all := spans + [x];
    assert all[..|all| - 1] == spans;
    assert SortSpans(all) == Insert(x, spans, SpanKey);
    KeysFollow(p);
    ChainInsert(x, spans, SpanKey, AnchoredIn(p), BeforeIn(p));
    InsertIs(x, spans, SpanKey);
    InsertApart(x, spans, SpanKey, AnyId(), OtherId());
  }

  // ----- Each edit -----

  lemma ClearIsApart(p: Passage, s: Span, x: Span, run: Run)
    requires Anchored(p, s) && Anchored(p, x) && RunOf(p, x) == Some(run) && Clear(p, s, run)
    ensures Before(p, s, x) || Before(p, x, s)
  {}

  /** Toggling keeps the spans good.  A click on a marked token takes its span out and nothing
      else; otherwise every span clear of the run stays, and one new span covers exactly the run. */
  lemma ToggleGood(p: Passage, spans: seq<Span>, run: Run, newId: string)
    requires ValidPassage(p) && GoodSpans(p, spans) && OneParagraph(p.para, run)
    requires forall s | s in spans :: s.id != newId
    ensures var out := ToggleSpans(p, spans, run, newId);
            && GoodSpans(p, out)
            && if run.t0 == run.t1 && Hit(p, spans, run.t0).Some?
               then forall s :: s in out <==> s in spans && s != Hit(p, spans, run.t0).value
               else
                 var range := ToRange(p.ts, run);
                 forall s :: s in out <==> (s in spans && Clear(p, s, run)) || s == Span(newId, range.start, range.end, "")
  {
    var hit := if run.t0 == run.t1 then Hit(p, spans, run.t0) else None;
    if hit.Some? {
      WithoutIs(spans, hit.value.id, AnchoredIn(p), BeforeIn(p));
      WithoutIs(spans, hit.value.id, AnyId(), OtherId());
      forall s | s in spans && s.id == hit.value.id ensures s == hit.value { SameId(spans, s, hit.value); }
    } else {
      var range := ToRange(p.ts, run);
      var x := Span(newId, range.start, range.end, "");
      RunIsAnchored(p, run, x);
      KeptIs(p, spans, run, AnchoredIn(p), BeforeIn(p));
      KeptIs(p, spans, run, AnyId(), OtherId());
      forall s | s in Kept(p, spans, run) ensures s.id != x.id && (Before(p, s, x) || Before(p, x, s)) {
        AnchoredMember(p, spans, s);
        ClearIsApart(p, s, x, run);
      }
      InsertGood(p, x, Kept(p, spans, run));
    }
  }

  lemma AnchoredMember(p: Passage, spans: seq<Span>, s: Span)
    requires GoodSpans(p, spans) && s in spans
    ensures Anchored(p, s)
  {
    var k :| 0 <= k < |spans| && spans[k] == s;
    assert AnchoredIn(p)(spans[k]);
  }

  lemma SameId(spans: seq<Span>, s: Span, t: Span)
    requires Chain(spans, AnyId(), OtherId()) && s in spans && t in spans && s.id == t.id
    ensures s == t
  {
    var k :| 0 <= k < |spans| && spans[k] == s;
    var l :| 0 <= l < |spans| && spans[l] == t;
    ChainAt(spans, AnyId(), OtherId(), k, l);
  }

  /** Marking a free word and clicking it again leaves the question as it was. */
  lemma ToggleTwice(p: Passage, spans: seq<Span>, t: nat, id1: string, id2: string)
    requires ValidPassage(p) && GoodSpans(p, spans) && t < |p.ts| && Hit(p, spans, t).None?
    requires forall s | s in spans :: s.id != id1
    ensures var run := Run(t, t);
            ToggleSpans(p, ToggleSpans(p, spans, run, id1), run, id2) == spans
  {
    var run := Run(t, t);
    var once := ToggleSpans(p, spans, run, id1);
    var range := ToRange(p.ts, run);
    var x := Span(id1, range.start, range.end, "");
    ToggleGood(p, spans, run, id1);
    RunIsAnchored(p, run, x);
    forall s | s in spans ensures Clear(p, s, run) {
      AnchoredMember(p, spans, s);
    }
    assert x in once;
    var hit := Hit(p, once, t);
    assert hit.Some? && hit.value == x;
    WithoutIs(once, id1, AnyId(), OtherId());
    WithoutIs(once, id1, AnchoredIn(p), BeforeIn(p));
    forall s, t | BeforeIn(p)(s, t) ensures !BeforeIn(p)(t, s) { BeforeOneWay(p, s, t); }
    ChainUnique(Without(once, id1), spans, AnchoredIn(p), BeforeIn(p));
  }

  lemma BeforeOneWay(p: Passage, s: Span, t: Span)
    requires Before(p, s, t)
    ensures !Before(p, t, s)
  {}

  lemma ResizedFrom(p: Passage, q: Question, id: string, grow: bool) returns (span: Span, next: Span, run: Run, t1: nat)
    requires |p.para| == |p.ts| && Resized(p, q, id, grow).Some?
    ensures FindSpan(q.spans, id) == Some(span) && Resized(p, q, id, grow) == Some(next)
    ensures span in q.spans && next.id == span.id == id
    ensures RunOf(p, span) == Some(run) && t1 == if grow then run.t1 + 1 else run.t1 - 1
    ensures run.t0 <= t1 < |p.ts| && p.para[t1] == p.para[run.t0] && !TakenAt(p, q.spans, id, t1)
    ensures RangeOf(next) == ToRange(p.ts, Run(run.t0, t1))
  {
    span, next := FindSpan(q.spans, id).value, Resized(p, q, id, grow).value;
    run := RunOf(p, span).value;
    t1 := if grow then run.t1 + 1 else run.t1 - 1;
  }

  /** The resized mark keeps its id and start and moves its far end by one token, inside its
      paragraph. */
  lemma ResizedIs(p: Passage, q: Question, id: string, grow: bool) returns (span: Span, next: Span, run: Run, t1: nat)
    requires ValidPassage(p) && GoodSpans(p, q.spans) && Resized(p, q, id, grow).Some?
    ensures FindSpan(q.spans, id) == Some(span) && Resized(p, q, id, grow) == Some(next)
    ensures span in q.spans && Anchored(p, span) && Anchored(p, next) && next.id == span.id == id
    ensures RunOf(p, span) == Some(run) && RunOf(p, next) == Some(Run(run.t0, t1))
    ensures t1 == (if grow then run.t1 + 1 else run.t1 - 1) && !TakenAt(p, q.spans, id, t1)
  {
    span, next, run, t1 := ResizedFrom(p, q, id, grow);
    AnchoredMember(p, q.spans, span);
    MovedIsAnchored(p, run.t0, t1, next);
  }

  lemma MovedIsAnchored(p: Passage, t0: nat, t1: nat, next: Span)
    requires ValidPassage(p) && t0 <= t1 < |p.ts| && p.para[t1] == p.para[t0] && RangeOf(next) == ToRange(p.ts, Run(t0, t1))
    ensures Anchored(p, next) && RunOf(p, next) == Some(Run(t0, t1))
  {
    SameEndsOneParagraph(p.para, t0, t1);
    RunIsAnchored(p, Run(t0, t1), next);
  }

  lemma SameEndsOneParagraph(para: seq<nat>, t0: nat, t1: nat)
    requires Monotone(para) && t0 <= t1 < |para| && para[t0] == para[t1]
    ensures OneParagraph(para, Run(t0, t1))
  {
    forall t | t0 <= t <= t1 ensures para[t] == para[t0] { assert para[t0] <= para[t] <= para[t1]; }
  }

  /** Growing or shrinking keeps the spans good: the mark takes or gives one token and never
      meets another. */
  lemma ResizeGood(p: Passage, q: Question, id: string, grow: bool)
    requires ValidPassage(p) && GoodSpans(p, q.spans) && Resized(p, q, id, grow).Some?
    ensures var next := Resized(p, q, id, grow).value;
            GoodSpans(p, Replace(q.spans, id, next)) && SortSpans(Replace(q.spans, id, next)) == Replace(q.spans, id, next)
  {
    var span, next, run, t1 := ResizedIs(p, q, id, grow);
    ReplaceGood(p, q.spans, span, next, t1);
    GoodIsSorted(p, Replace(q.spans, id, next));
  }

  lemma ReplaceGood(p: Passage, spans: seq<Span>, span: Span, next: Span, t1: nat)
    requires GoodSpans(p, spans) && span in spans && Anchored(p, span) && Anchored(p, next)
    requires next.id == span.id && RunOf(p, next).value == Run(RunOf(p, span).value.t0, t1)
    requires t1 <= RunOf(p, span).value.t1 + 1 && !TakenAt(p, spans, span.id, t1)
    ensures GoodSpans(p, Replace(spans, span.id, next))
  {
    var out := Replace(spans, span.id, next);
    forall k | 0 <= k < |out| ensures AnchoredIn(p)(out[k]) { ChainAt(spans, AnchoredIn(p), BeforeIn(p), k, k); }
    forall k, l | 0 <= k < l < |out| ensures BeforeIn(p)(out[k], out[l]) && OtherId()(out[k], out[l]) {
      ResizePair(p, spans, span, next, k, l, t1);
    }
  }

  lemma ResizePair(p: Passage, spans: seq<Span>, span: Span, next: Span, k: nat, l: nat, t1: nat)
    requires GoodSpans(p, spans) && k < l < |spans| && span in spans && Anchored(p, span) && Anchored(p, next)
    requires next.id == span.id && RunOf(p, next).value == Run(RunOf(p, span).value.t0, t1)
    requires t1 <= RunOf(p, span).value.t1 + 1 && !TakenAt(p, spans, span.id, t1)
    ensures var a := if spans[k].id == span.id then next else spans[k];
            var b := if spans[l].id == span.id then next else spans[l];
            Before(p, a, b) && a.id != b.id
  {
    ChainAt(spans, AnchoredIn(p), BeforeIn(p), k, l);
    ChainAt(spans, AnyId(), OtherId(), k, l);
    if spans[k].id == span.id {
      SameId(spans, spans[k], span);
      assert spans[l] in spans && spans[l].id != span.id;
    } else if spans[l].id == span.id {
      SameId(spans, spans[l], span);
    }
  }

  // ----- Whole documents and whole runs -----

  /** Changing the one question with this id to good spans keeps the document good. */
  lemma WithQuestionGood(p: Passage, doc: Doc, qid: string, f: Question -> Question)
    requires GoodDoc(p, doc)
    requires forall q | q in doc.questions && q.id == qid :: f(q).id == q.id && GoodSpans(p, f(q).spans)
    ensures GoodDoc(p, WithQuestion(doc, qid, f))
  {
    var out := WithQuestion(doc, qid, f).questions;
    forall k | 0 <= k < |out| ensures GoodSpans(p, out[k].spans) && out[k].id == doc.questions[k].id {
      assert doc.questions[k] in doc.questions;
    }
  }

  lemma SameQuestion(p: Passage, doc: Doc, q: Question, x: Question)
    requires GoodDoc(p, doc) && q in doc.questions && x in doc.questions && q.id == x.id
    ensures q == x && GoodSpans(p, q.spans)
  {
    var k :| 0 <= k < |doc.questions| && doc.questions[k] == q;
    var l :| 0 <= l < |doc.questions| && doc.questions[l] == x;
    assert k == l;
  }

  /** What a press reaches: its own token where marks are single words or it was released off the text,
      and otherwise every token between the two in the paragraph where it began. */
  lemma ReachIs(p: Passage, unit: Unit, origin: nat, end: int, t: nat)
    requires ValidPassage(p) && origin < |p.ts|
    ensures var run := Reach(p, unit, origin, end);
            run.t0 <= t <= run.t1 <==>
            if unit == Word || end < 0 || end >= |p.ts| then t == origin
            else ((origin <= t <= end) || (end <= t <= origin)) && p.para[t] == p.para[origin]
  {
    ClampIs(p.para, origin, if unit == Word || !(0 <= end < |p.para|) then origin else end);
  }

  lemma ToggleMarkGood(p: Passage, doc: Doc, qid: string, origin: int, end: int, newId: string)
    requires ValidPassage(p) && GoodDoc(p, doc) && FreshId(doc, Toggle(qid, origin, end, newId))
    ensures GoodDoc(p, ToggleMark(p, doc, qid, origin, end, newId))
  {
    var found := FindQuestion(doc, qid, 0);
    if found.Some? && 0 <= origin < |p.ts| {
      var q := found.value;
      var run := Reach(p, q.unit, origin, end);
      ClampIs(p.para, origin, if q.unit == Word || !(0 <= end < |p.para|) then origin else end);
      SameQuestion(p, doc, q, q);
      FreshInQuestion(doc, q, Toggle(qid, origin, end, newId));
      ToggleGood(p, q.spans, run, newId);
      WithQuestionGood(p, doc, qid, _ => q.(spans := ToggleSpans(p, q.spans, run, newId)));
    }
  }

  lemma FreshInQuestion(doc: Doc, q: Question, edit: Edit)
    requires edit.Toggle? && FreshId(doc, edit) && q in doc.questions
    ensures forall s | s in q.spans :: s.id != edit.newId
  {
    var k :| 0 <= k < |doc.questions| && doc.questions[k] == q;
  }

  lemma ResizeMarkGood(p: Passage, doc: Doc, qid: string, id: string, grow: bool)
    requires ValidPassage(p) && GoodDoc(p, doc)
    ensures GoodDoc(p, ResizeMark(p, doc, qid, id, grow))
  {
    var found := FindQuestion(doc, qid, 0);
    if found.Some? && Resized(p, found.value, id, grow).Some? {
      var q, next := found.value, Resized(p, found.value, id, grow).value;
      SameQuestion(p, doc, q, q);
      ResizeGood(p, q, id, grow);
      forall x | x in doc.questions && x.id == qid ensures x == q { SameQuestion(p, doc, q, x); }
      WithQuestionGood(p, doc, qid, (x: Question) => x.(spans := SortSpans(Replace(x.spans, id, next))));
    }
  }

  lemma RemoveSpanGood(p: Passage, doc: Doc, qid: string, id: string)
    requires GoodDoc(p, doc)
    ensures GoodDoc(p, RemoveSpan(doc, qid, id))
  {
    forall q | q in doc.questions ensures GoodSpans(p, Without(q.spans, id)) {
      SameQuestion(p, doc, q, q);
      WithoutIs(q.spans, id, AnchoredIn(p), BeforeIn(p));
      WithoutIs(q.spans, id, AnyId(), OtherId());
    }
    WithQuestionGood(p, doc, qid, (x: Question) => x.(spans := Without(x.spans, id)));
  }

  lemma ApplyGood(p: Passage, doc: Doc, edit: Edit)
    requires ValidPassage(p) && GoodDoc(p, doc) && FreshId(doc, edit)
    ensures GoodDoc(p, Apply(p, doc, edit))
  {
    match edit
    case Toggle(qid, origin, end, newId) => ToggleMarkGood(p, doc, qid, origin, end, newId);
    case Resize(qid, id, grow) => ResizeMarkGood(p, doc, qid, id, grow);
    case Remove(qid, id) => RemoveSpanGood(p, doc, qid, id);
    case ClearAll(qid) => WithQuestionGood(p, doc, qid, (x: Question) => x.(spans := []));
    case Switch(qid, unit) =>
      forall q | q in doc.questions ensures GoodSpans(p, q.spans) { SameQuestion(p, doc, q, q); }
      WithQuestionGood(p, doc, qid, (x: Question) => x.(unit := unit));
  }

  /** Every toggle of the sequence draws an unused id. */
  ghost predicate FreshIds(p: Passage, doc: Doc, edits: seq<Edit>)
    requires |p.para| == |p.ts|
  {
    edits == [] ||
    var before := edits[..|edits| - 1];
    FreshIds(p, doc, before) && FreshId(ApplyAll(p, doc, before), edits[|edits| - 1])
  }

  /** Whatever the author does to the marks, every question's spans stay in text order, share no
      token, sit on token edges and lie each inside one paragraph. */
  lemma {:induction false} EditsKeepMarks(p: Passage, doc: Doc, edits: seq<Edit>)
    requires ValidPassage(p) && GoodDoc(p, doc) && FreshIds(p, doc, edits)
    ensures GoodDoc(p, ApplyAll(p, doc, edits))
    decreases |edits|
  {
    if edits != [] {
      var before := edits[..|edits| - 1];
      EditsKeepMarks(p, doc, before);
      ApplyGood(p, ApplyAll(p, doc, before), edits[|edits| - 1]);
    }
  }

  /** So it is for the tokens and paragraphs of any text. */
  lemma EditsKeepMarksOfText(abc: Alphabet, text: string, ends: seq<nat>, doc: Doc, edits: seq<Edit>)
    requires var p := PassageOf(abc, text, ends); GoodDoc(p, doc) && FreshIds(p, doc, edits)
    ensures var p := PassageOf(abc, text, ends); GoodDoc(p, ApplyAll(p, doc, edits))
  {
    PassageIsValid(abc, text, ends);
    EditsKeepMarks(PassageOf(abc, text, ends), doc, edits);
  }
}
