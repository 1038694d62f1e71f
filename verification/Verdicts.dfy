/** What a judgement says of the sentence: its spans, its stray edits, its verdict. */
module Verdicts {
  import opened Text
  import opened Alignment
  import opened Spans
  import opened Judging
  import opened Wording
  import AnswerKey

  // ----- What the student did -----

  /** Some word was put into the gap. */
  predicate PutIn(e: Edits, slot: int) { slot in e.ins && Fields(e.ins[slot]) != [] }

  lemma PutInIs(e: Edits, slot: int)
    ensures Inserts(e, slot) <==> PutIn(e, slot)
  {
    if slot in e.ins { TrimEmpty(e.ins[slot]); }
  }

  /** The gap or the word at which a span was touched. */
  predicate TouchedAt(e: Edits, span: Span, i: int) {
    if span.wFrom == span.wTo then i == span.wFrom && PutIn(e, i)
    else (span.wFrom <= i <= span.wTo && PutIn(e, i)) || (span.wFrom <= i < span.wTo && i in e.marked && e.marked[i])
  }

  lemma TouchedSomewhere(e: Edits, span: Span)
    requires span.wFrom <= span.wTo
    ensures Touched(e, span) <==> exists i: int :: TouchedAt(e, span, i)
  {
    forall i: int | TouchedAt(e, span, i) ensures Touched(e, span) {
      PutInIs(e, i);
      assert Inserts(e, i) || Marked(e, i);
    }
    if Touched(e, span) {
      if slot :| span.wFrom <= slot <= span.wTo && Inserts(e, slot) {
        PutInIs(e, slot);
        assert TouchedAt(e, span, slot);
      } else {
        var i :| span.wFrom <= i < span.wTo && Marked(e, i);
        assert TouchedAt(e, span, i);
      }
    }
  }

  /** The wording stands there: it is the same, or, with tolerance for typing errors, each word is
      equal to its word up to case or one letter. */
  predicate StandsFor(text: string, fix: string, check: Check, lower: string -> string) {
    || SameWording(text, fix, check, lower)
    || (check.typo
        && |Fields(text)| == |Fields(fix)|
        && forall k | 0 <= k < |Fields(fix)| :: WordEq(Fields(text)[k], Fields(fix)[k], check, lower))
  }

  /** A span is missed when nothing was done in it, fixed when what stands there now is the key's
      wording, and attempted otherwise. */
  lemma SpanStateIs(w: seq<string>, e: Edits, span: Span, check: Check, lower: string -> string)
    requires Fits(span, w)
    ensures var s := StateOf(w, e, span, check, lower);
            var touched := exists i: int :: TouchedAt(e, span, i);
            && s.span == span && s.touched == touched
            && Fields(s.localFix) == FieldsAll(Pieces(w, e, span.wFrom, span.wTo))
            && s.hit == StandsFor(s.localFix, span.fix, check, lower)
            && (s.outcome == Missed <==> !touched)
            && (s.outcome == Fixed <==> touched && s.hit)
            && (s.outcome == Attempted <==> touched && !s.hit)
  {
    var local := LocalFix(w, e, span);
    TouchedSomewhere(e, span);
    FieldsOfJoin(Pieces(w, e, span.wFrom, span.wTo));
    NormIs(local, span.fix, check, lower);
    WordsAreFields(local);
    WordsAreFields(span.fix);
  }

  /** The mistake was touched, and what stands there now is the key's wording. */
  ghost predicate PutRight(w: seq<string>, e: Edits, span: Span, check: Check, lower: string -> string)
    requires Fits(span, w)
  {
    (exists i: int :: TouchedAt(e, span, i)) && StandsFor(LocalFix(w, e, span), span.fix, check, lower)
  }

  // ----- Stray edits -----

  /** Word `i` belongs to no mistake. */
  predicate Outside(hard: seq<Span>, i: int) { forall k | 0 <= k < |hard| :: i < hard[k].wFrom || hard[k].wTo <= i }

  /** A gap belongs to a mistake that lies around it, or to one that has words missing there. */
  predicate GapOutside(hard: seq<Span>, slot: int) {
    forall k | 0 <= k < |hard| ::
      if hard[k].wFrom == hard[k].wTo then slot != hard[k].wFrom else slot <= hard[k].wFrom || hard[k].wTo <= slot
  }

  lemma OneField(t: string, w: string)
    requires Fields(t) == [w] && t != "" && !IsSpace(t[0]) && !IsSpace(t[|t| - 1])
    ensures t == w
  {
    var n := WordLen(t);
    assert Fields(t) == [t[..n]] + Fields(t[n..]);
    var rest := t[n..];
    if rest != "" {
      assert rest[|rest| - 1] == t[|t| - 1];
      LastField(rest);
    }
  }

  lemma {:induction false} LastField(s: string)
    requires s != "" && !IsSpace(s[|s| - 1])
    ensures Fields(s) != []
  {
    if IsSpace(s[0]) { LastField(s[1..]); }
  }

  lemma WordReadsOn(w: seq<string>, e: Edits, i: nat)
    requires i < |w| && Clean(w[i])
    ensures FieldsAll(WordPiece(w, e, i)) == [w[i]] <==> !Edited(w, e, i)
  {
    FieldsOfClean(w[i]);
    assert FieldsAll([]) == [] && FieldsAll([w[i]]) == Fields(w[i]) + FieldsAll([]);
    if Marked(e, i) && i in e.fix {
      var t := Trim(e.fix[i]);
      assert FieldsAll([t]) == Fields(t) + FieldsAll([]);
      TrimStartEdge(e.fix[i]);
      TrimEndEdge(TrimStart(e.fix[i]));
      if t != "" && Fields(t) == [w[i]] {
        assert t[0] == TrimStart(e.fix[i])[0];
        OneField(t, w[i]);
      }
    }
  }

  /** Outside the mistakes every word reads as it did, and nothing was put in between. */
  ghost predicate LeftAlone(w: seq<string>, e: Edits, hard: seq<Span>) {
    && (forall i | 0 <= i < |w| && Outside(hard, i) :: FieldsAll(WordPiece(w, e, i)) == [w[i]])
    && (forall slot: int | GapOutside(hard, slot) :: !PutIn(e, slot))
  }

  /** Nothing is stray exactly when the rest of the sentence was left alone. */
  lemma StrayIff(w: seq<string>, e: Edits, hard: seq<Span>)
    requires AllClean(w)
    ensures StrayEdits(w, e, hard) == {} <==> LeftAlone(w, e, hard)
  {
    forall i: nat | i < |w|
      ensures (FieldsAll(WordPiece(w, e, i)) == [w[i]] <==> !Edited(w, e, i)) && (Outside(hard, i) <==> !InSpan(hard, i))
      ensures Edited(w, e, i) && !InSpan(hard, i) <==> EditAt(i) in StrayEdits(w, e, hard)
    {
      assert w[i] in w;
      WordReadsOn(w, e, i);
    }
    forall slot: int
      ensures (Inserts(e, slot) <==> PutIn(e, slot)) && (GapOutside(hard, slot) <==> !InSpanSlot(hard, slot))
      ensures Inserts(e, slot) && !InSpanSlot(hard, slot) <==> InsertAt(slot) in StrayEdits(w, e, hard)
    {
      PutInIs(e, slot);
    }
  }

  // ----- The closest variant -----

  /** All words of the sentence stand for the variant's words one by one, and some are not the same. */
  predicate OneByOne(built: string, variant: string, check: Check, lower: string -> string) {
    var a, b := Fields(built), Fields(variant);
    && |a| == |b| && (forall k | 0 <= k < |a| :: WordEq(a[k], b[k], check, lower)) && a != b
  }

  lemma TypoOnlyIs(built: string, variant: string, check: Check, lower: string -> string)
    ensures TypoOnly(built, variant, check, lower) <==> OneByOne(built, variant, check, lower)
  {
    WordsAreFields(built);
    WordsAreFields(variant);
    var rel, a, b := Tolerant(check, lower), Fields(built), Fields(variant);
    assert OpsTo(built, variant, check, lower) == Walk(rel, a, b, 0, 0);
    KeptIs(rel, a, b);
    forall k | 0 <= k < |a| && k < |b| ensures rel(a[k], b[k]) == WordEq(a[k], b[k], check, lower) {}
  }

  lemma KeptIs(rel: (string, string) -> bool, a: seq<string>, b: seq<string>)
    ensures var ops := Walk(rel, a, b, 0, 0);
            (forall k | 0 <= k < |ops| :: ops[k].Both?) && (exists k | 0 <= k < |ops| :: !Identical(ops[k], a, b))
            <==> |a| == |b| && (forall k | 0 <= k < |a| :: rel(a[k], b[k])) && a != b
  {
    var ops := Walk(rel, a, b, 0, 0);
    WalkIsScript(rel, a, b, 0, 0);
    if |a| == |b| && (forall k | 0 <= k < |a| :: rel(a[k], b[k])) {
      WalkInStep(rel, a, b, 0);
    } else if forall k | 0 <= k < |ops| :: ops[k].Both? {
      AllKept(rel, a, b, ops, 0);
    }
    if |ops| == |a| == |b| && forall k | 0 <= k < |ops| :: ops[k] == Both(k, k) {
      if k :| 0 <= k < |a| && a[k] != b[k] { assert !Identical(ops[k], a, b); }
    }
  }

  /** Two sides that match word by word are walked in step. */
  lemma {:induction false} WalkInStep(rel: (string, string) -> bool, a: seq<string>, b: seq<string>, i: nat)
    requires i <= |a| == |b| && forall k | i <= k < |a| :: rel(a[k], b[k])
    ensures var ops := Walk(rel, a, b, i, i); |ops| == |a| - i && forall k | 0 <= k < |ops| :: ops[k] == Both(i + k, i + k)
    decreases |a| - i
  {
    if i < |a| {
      WalkInStep(rel, a, b, i + 1);
      var ops, rest := Walk(rel, a, b, i, i), Walk(rel, a, b, i + 1, i + 1);
      assert ops == [Both(i, i)] + rest;
      forall k | 0 <= k < |ops| ensures ops[k] == Both(i + k, i + k) {
        if k > 0 { assert ops[k] == rest[k - 1]; }
      }
    }
  }

  lemma {:induction false} AllKept(rel: (string, string) -> bool, a: seq<string>, b: seq<string>, ops: seq<Op>, i: nat)
    requires Script(rel, a, b, ops, i, i) && forall k | 0 <= k < |ops| :: ops[k].Both?
    ensures |a| == |b| == i + |ops|
    ensures forall k | 0 <= k < |ops| :: ops[k] == Both(i + k, i + k)
    ensures forall t | i <= t < |a| :: rel(a[t], b[t])
    decreases |ops|
  {
    if ops != [] {
      AllKept(rel, a, b, ops[1..], i + 1);
      forall k | 0 <= k < |ops| ensures ops[k] == Both(i + k, i + k) {
        if k > 0 { assert ops[k] == ops[1..][k - 1]; }
      }
    }
  }

  /** How like the sentence is to a variant: twice the words kept over the words of both. */
  function Likeness(built: string, variant: string, check: Check, lower: string -> string): real {
    var a, b := Fields(built), Fields(variant);
    if |a| + |b| == 0 then 0.0 else (2 * Lcs(Tolerant(check, lower), a, b, 0, 0)) as real / (|a| + |b|) as real
  }

  lemma LikenessIs(built: string, variant: string, check: Check, lower: string -> string)
    ensures SimTo(built, variant, check, lower) == Likeness(built, variant, check, lower)
  {
    WordsAreFields(built);
    WordsAreFields(variant);
  }

  /** Variant `k` is the first of those most like the sentence. */
  ghost predicate FirstClosest(built: string, accepted: seq<string>, k: nat, check: Check, lower: string -> string) {
    && k < |accepted|
    && (forall t | 0 <= t < |accepted| :: Likeness(built, accepted[t], check, lower) <= Likeness(built, accepted[k], check, lower))
    && (forall t | 0 <= t < k :: Likeness(built, accepted[t], check, lower) < Likeness(built, accepted[k], check, lower))
  }

  lemma ClosestVariant(built: string, accepted: seq<string>, check: Check, lower: string -> string) returns (k: nat)
    requires accepted != []
    ensures k == Closest(Sims(built, accepted, check, lower), |accepted|)
    ensures FirstClosest(built, accepted, k, check, lower)
    ensures Sims(built, accepted, check, lower)[k] == Likeness(built, accepted[k], check, lower)
  {
    var sims := Sims(built, accepted, check, lower);
    k := Closest(sims, |accepted|);
    ClosestIs(sims, |accepted|);
    forall t | 0 <= t < |accepted| ensures sims[t] == Likeness(built, accepted[t], check, lower) {
      LikenessIs(built, accepted[t], check, lower);
    }
  }

  // ----- The verdict -----

  /** Without a key there is nothing to compare with: the answer goes to the teacher unjudged. */
  lemma NoKey(check: Check, item: Item, e: Edits, lower: string -> string)
    requires Variants(item) == []
    ensures var j := Judge(check, item, e, lower);
            && j == Judgement(VNoRef, 0.0, [], "", [], 0, |HardSpans(item, check, lower)|, Built(item, e), {}, false)
            && Route(check, j) == Teacher
  {}

  /** The sentence is a variant, word for word as it is compared. */
  predicate IsVariant(built: string, accepted: seq<string>, check: Check, lower: string -> string) {
    exists t | 0 <= t < |accepted| :: SameWording(accepted[t], built, check, lower)
  }

  /** Nothing was marked and nothing put in. */
  predicate Idle(e: Edits) { (forall i | i in e.marked :: !e.marked[i]) && (forall slot | slot in e.ins :: !PutIn(e, slot)) }

  /** What a verdict says, of the mistakes fixed, the stray edits and the variant compared with. */
  ghost predicate Means(v: Verdict, idle: bool, exact: bool, close: bool, all: bool, some: bool, like: bool, stray: bool, block: bool) {
    match v
    case VNoRef => false
    case VEmpty => idle
    case VExact => !idle && exact && !(stray && block)
    case VTypo => !idle && !exact && ((close && !(stray && block)) || (!close && all && !stray))
    case VStray => !idle && stray && (((exact || close) && block) || (!exact && !close && all))
    case VPartial => !idle && !exact && !close && !all && (some || like)
    case VOff => !idle && !exact && !close && !all && !some && !like
  }

  lemma VerdictMeans(idle: bool, exact: bool, close: bool, hard: nat, fixed: nat, stray: bool, sim: real, near: real, policy: StrayPolicy)
    ensures Means(VerdictOf(FirstVerdict(idle, exact, close, hard, fixed, stray, sim, near), stray, policy),
                  idle, exact, close, hard > 0 && fixed == hard, fixed > 0, sim >= near, stray, policy == Block)
  {}

  ghost predicate AllFixed(states: seq<SpanState>) { states != [] && forall i | 0 <= i < |states| :: states[i].outcome == Fixed }

  ghost predicate SomeFixed(states: seq<SpanState>) { exists i | 0 <= i < |states| :: states[i].outcome == Fixed }

  lemma {:induction false} CountSome(states: seq<SpanState>)
    ensures CountFixed(states) > 0 <==> SomeFixed(states)
  {
    if states != [] {
      CountSome(states[1..]);
      assert SomeFixed(states) <==> states[0].outcome == Fixed || SomeFixed(states[1..]) by {
        if SomeFixed(states[1..]) {
          var i :| 0 <= i < |states[1..]| && states[1..][i].outcome == Fixed;
          assert states[i + 1].outcome == Fixed;
        }
        if i :| 1 <= i < |states| && states[i].outcome == Fixed { assert states[1..][i - 1].outcome == Fixed; }
      }
    }
  }

  lemma IdleIs(e: Edits)
    ensures Untouched(e) <==> Idle(e)
  {
    forall slot | slot in e.ins ensures Inserts(e, slot) <==> PutIn(e, slot) { PutInIs(e, slot); }
  }

  lemma ExactIs(built: string, accepted: seq<string>, check: Check, lower: string -> string)
    ensures Exact(built, accepted, check, lower) <==> IsVariant(built, accepted, check, lower)
  {
    forall t | 0 <= t < |accepted|
      ensures Norm(accepted[t], check, lower) == Norm(built, check, lower) <==> SameWording(accepted[t], built, check, lower)
    {
      NormIs(accepted[t], built, check, lower);
    }
  }

  lemma WeighMeans(check: Check, w: seq<string>, e: Edits, hard: seq<Span>, built: string, accepted: seq<string>,
                   ref: string, sim: real, states: seq<SpanState>, lower: string -> string)
    requires |states| == |hard|
    ensures var j := Weigh(check, w, e, hard, built, accepted, ref, sim, states, lower);
            && j.ref == ref && j.sim == sim && j.built == built && j.states == states && j.spanCount == |hard|
            && j.stray == StrayEdits(w, e, hard) && j.exact == IsVariant(built, accepted, check, lower)
            && Means(j.verdict, Idle(e), j.exact, OneByOne(built, ref, check, lower),
                     AllFixed(states), SomeFixed(states), sim >= check.near, j.stray != {}, check.strayEdits == Block)
  {
    IdleIs(e);
    ExactIs(built, accepted, check, lower);
    TypoOnlyIs(built, ref, check, lower);
    CountSome(states);
    VerdictMeans(Untouched(e), Exact(built, accepted, check, lower), TypoOnly(built, ref, check, lower),
                 |hard|, CountFixed(states), StrayEdits(w, e, hard) != {}, sim, check.near, check.strayEdits);
  }

  /** The judgement of a sentence that has a key: which variant it is compared with, and which verdict
      it gets.  Exact needs a variant's wording; a typing error is every word within tolerance, or
      every mistake fixed and nothing else done; the rest is partly right when some mistake is fixed
      or the sentence is at least as like the key as the author asks. */
  lemma VerdictIs(check: Check, item: Item, e: Edits, lower: string -> string) returns (k: nat)
    requires Variants(item) != []
    ensures var j, accepted, built := Judge(check, item, e, lower), Variants(item), Built(item, e);
            && FirstClosest(built, accepted, k, check, lower)
            && j.ref == accepted[k] && j.sim == Likeness(built, accepted[k], check, lower) && j.built == built
            && j.exact == IsVariant(built, accepted, check, lower)
            && |j.states| == j.spanCount == |HardSpans(item, check, lower)|
            && j.stray == StrayEdits(Words(item.wrong), e, HardSpans(item, check, lower))
            && Means(j.verdict, Idle(e), j.exact, OneByOne(built, accepted[k], check, lower),
                     AllFixed(j.states), SomeFixed(j.states), j.sim >= check.near, j.stray != {}, check.strayEdits == Block)
  {
    var w, accepted, built, hard := Words(item.wrong), Variants(item), Built(item, e), HardSpans(item, check, lower);
    k := ClosestVariant(built, accepted, check, lower);
    WeighMeans(check, w, e, hard, built, accepted, accepted[k], Likeness(built, accepted[k], check, lower),
               States(w, e, hard, check, lower), lower);
  }
}
