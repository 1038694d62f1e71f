/** What an automatic approval means, and that correcting every mistake in place earns it. */
module Approval {
  import opened Options
  import opened Text
  import opened AnswerKey
  import opened Alignment
  import opened Spans
  import opened Judging
  import opened Wording
  import opened Verdicts

  // ----- Soundness: the router passes exactly these answers -----

  /** An answer passes if and only if the check is on and may approve by itself, the student
      did something, the built sentence has an accepted variant's wording, every mistake is put
      right where that is required, and the rest was left alone unless such edits are ignored. */
  lemma PassIff(check: Check, item: Item, e: Edits, lower: string -> string)
    ensures var w, hard := Words(item.wrong), HardSpans(item, check, lower);
            Route(check, Judge(check, item, e, lower)) == Pass <==>
              && check.on && check.exactPass
              && !Idle(e)
              && IsVariant(Built(item, e), Variants(item), check, lower)
              && (check.requireAllSpans ==> forall k | 0 <= k < |hard| :: PutRight(w, e, hard[k], check, lower))
              && (check.strayEdits == Ignore || LeftAlone(w, e, hard))
  {
    var w, hard := Words(item.wrong), HardSpans(item, check, lower);
    PassByState(check, item, e, lower);
    IdleIs(e);
    ExactIs(Built(item, e), Variants(item), check, lower);
    WordsAreFields(item.wrong);
    StrayIff(w, e, hard);
    AllPutRight(w, e, hard, check, lower);
  }

  lemma AllPutRight(w: seq<string>, e: Edits, hard: seq<Span>, check: Check, lower: string -> string)
    requires AllFit(hard, w)
    ensures var states := States(w, e, hard, check, lower);
            (forall k | 0 <= k < |states| :: states[k].outcome == Fixed) <==>
            (forall k | 0 <= k < |hard| :: PutRight(w, e, hard[k], check, lower))
  {
    forall k | 0 <= k < |hard|
      ensures States(w, e, hard, check, lower)[k].outcome == Fixed <==> PutRight(w, e, hard[k], check, lower)
    {
      SpanStateIs(w, e, hard[k], check, lower);
    }
  }

  lemma PassByState(check: Check, item: Item, e: Edits, lower: string -> string)
    ensures var w, hard := Words(item.wrong), HardSpans(item, check, lower);
            var states := States(w, e, hard, check, lower);
            Route(check, Judge(check, item, e, lower)) == Pass <==>
              && check.on && check.exactPass
              && !Untouched(e)
              && Exact(Built(item, e), Variants(item), check, lower)
              && (check.requireAllSpans ==> forall k | 0 <= k < |states| :: states[k].outcome == Fixed)
              && (check.strayEdits == Ignore || StrayEdits(w, e, hard) == {})
  {
    var w, accepted, hard := Words(item.wrong), Variants(item), HardSpans(item, check, lower);
    if accepted != [] {
      var sims := Sims(Built(item, e), accepted, check, lower);
      var k := Closest(sims, |sims|);
      WeighPass(check, w, e, hard, Built(item, e), accepted, accepted[k], sims[k], States(w, e, hard, check, lower), lower);
    }
  }

  lemma WeighPass(check: Check, w: seq<string>, e: Edits, hard: seq<Span>, built: string, accepted: seq<string>,
                  ref: string, sim: real, states: seq<SpanState>, lower: string -> string)
    requires |states| == |hard|
    ensures var j := Weigh(check, w, e, hard, built, accepted, ref, sim, states, lower);
            Route(check, j) == Pass <==>
              && check.on && check.exactPass
              && !Untouched(e)
              && Exact(built, accepted, check, lower)
              && (check.requireAllSpans ==> forall k | 0 <= k < |states| :: states[k].outcome == Fixed)
              && (check.strayEdits == Ignore || j.stray == {})
  {
    var stray := StrayEdits(w, e, hard) != {};
    VerdictIsExact(Untouched(e), Exact(built, accepted, check, lower), TypoOnly(built, ref, check, lower),
                   |hard|, CountFixed(states), stray, sim, check.near, check.strayEdits);
  }

  lemma VerdictIsExact(untouched: bool, exact: bool, typoOnly: bool, hard: nat, fixed: nat,
                       stray: bool, sim: real, near: real, policy: StrayPolicy)
    ensures VerdictOf(FirstVerdict(untouched, exact, typoOnly, hard, fixed, stray, sim, near), stray, policy) == VExact
            <==> !untouched && exact && !(stray && policy == Block)
  {}

  // ----- Every derived group starts with a difference -----

  ghost predicate StartsApart(g: Group, w: seq<string>, r: seq<string>) {
    !(g.wFrom < |w| && g.rFrom < |r| && w[g.wFrom] == r[g.rFrom])
  }

  ghost predicate Honest(ops: seq<Op>, w: seq<string>, r: seq<string>) {
    forall op | op in ops :: op.ai < |w| && op.bi < |r| && w[op.ai] == r[op.bi] ==> op.Both?
  }

  lemma {:induction false} WalkIsHonest(w: seq<string>, r: seq<string>, check: Check, lower: string -> string, i: nat, j: nat)
    requires i <= |w| && j <= |r|
    ensures Honest(Walk(Literal(check, lower), w, r, i, j), w, r)
    decreases |w| - i + |r| - j
  {
    var rel := Literal(check, lower);
    var ops := Walk(rel, w, r, i, j);
    if ops != [] {
      WalkIsHonest(w, r, check, lower, NextA(ops[0]), NextB(ops[0]));
      assert ops == [ops[0]] + Walk(rel, w, r, NextA(ops[0]), NextB(ops[0]));
    }
  }

  lemma {:induction false} RawStartsApart(ops: seq<Op>, cur: Option<Group>, w: seq<string>, r: seq<string>)
    requires Honest(ops, w, r) && (cur.Some? ==> StartsApart(cur.value, w, r))
    ensures forall g | g in RawGroups(ops, cur, w, r) :: StartsApart(g, w, r)
  {
    if ops != [] {
      var op, rest := ops[0], ops[1..];
      assert op in ops && forall x | x in rest :: x in ops;
      if Identical(op, w, r) { RawStartsApart(rest, None, w, r); }
      else { RawStartsApart(rest, Some(Widen(cur, op)), w, r); }
    }
  }

  lemma {:induction false} MergeStartsApart(cur: Group, raw: seq<Group>, k: nat, w: seq<string>, r: seq<string>, lower: string -> string)
    requires k <= |raw| && StartsApart(cur, w, r) && forall g | g in raw :: StartsApart(g, w, r)
    ensures forall g | g in MergeFrom(cur, raw, k, w, r, lower) :: StartsApart(g, w, r)
    decreases |raw| - k
  {
    if k < |raw| {
      if Mergeable(cur, raw[k], w, r, lower) { MergeStartsApart(Fuse(cur, raw[k]), raw, k + 1, w, r, lower); }
      else { MergeStartsApart(raw[k], raw, k + 1, w, r, lower); }
    }
  }

  lemma GroupsStartApart(w: seq<string>, r: seq<string>, check: Check, lower: string -> string)
    ensures forall g | g in GroupsOf(w, r, check, lower) :: StartsApart(g, w, r)
  {
    var raw := RawOf(w, r, check, lower);
    WalkIsHonest(w, r, check, lower, 0, 0);
    RawStartsApart(Walk(Literal(check, lower), w, r, 0, 0), None, w, r);
    if raw != [] { MergeStartsApart(raw[0], raw, 1, w, r, lower); }
  }

  // ----- Locally right everywhere and nothing stray: the sentence is the key -----

  predicate CoversWord(gs: seq<Group>, i: int) {
    exists k | 0 <= k < |gs| :: gs[k].wFrom <= i < gs[k].wTo
  }

  predicate CoversSlot(gs: seq<Group>, slot: int) {
    exists k | 0 <= k < |gs| ::
      if gs[k].wFrom == gs[k].wTo then gs[k].wFrom == slot else gs[k].wFrom < slot < gs[k].wTo
  }

  /** From position `i` on, every changed word and every insertion lies inside a group. */
  ghost predicate Tidy(gs: seq<Group>, w: seq<string>, e: Edits, i: nat) {
    && (forall t | i <= t < |w| && Edited(w, e, t) :: CoversWord(gs, t))
    && (forall slot | i <= slot <= |w| && Inserts(e, slot) :: CoversSlot(gs, slot))
  }

  ghost predicate LocallyRight(g: Group, w: seq<string>, r: seq<string>, e: Edits) {
    && g.wFrom <= g.wTo <= |w| && g.rFrom <= g.rTo <= |r|
    && FieldsAll(Pieces(w, e, g.wFrom, g.wTo)) == r[g.rFrom..g.rTo]
  }

  lemma UneditedWord(w: seq<string>, e: Edits, i: nat)
    requires i < |w| && Clean(w[i]) && !Edited(w, e, i)
    ensures FieldsAll(WordPiece(w, e, i)) == [w[i]]
  {
    FieldsOfClean(w[i]);
    assert FieldsAll([w[i]]) == Fields(w[i]) + FieldsAll([]);
  }

  lemma {:induction false} PiecesSplit(w: seq<string>, e: Edits, i: nat, m: nat, n: nat)
    requires i <= m <= n <= |w| && SlotPiece(e, m) == []
    ensures Pieces(w, e, i, n) == Pieces(w, e, i, m) + Pieces(w, e, m, n)
    decreases m - i
  {
    if i < m {
      PiecesSplit(w, e, i + 1, m, n);
      var a, b, c := SlotPiece(e, i) + WordPiece(w, e, i), Pieces(w, e, i + 1, m), Pieces(w, e, m, n);
      assert a + (b + c) == (a + b) + c;
    } else {
      assert Pieces(w, e, i, m) == [];
    }
  }

  /** One word outside every group, its slot empty. */
  lemma StepOver(w: seq<string>, e: Edits, i: nat)
    requires i < |w| && Clean(w[i]) && !Edited(w, e, i)
    ensures FieldsAll(Pieces(w, e, i, |w|))
         == FieldsAll(SlotPiece(e, i)) + [w[i]] + FieldsAll(Pieces(w, e, i + 1, |w|))
  {
    UneditedWord(w, e, i);
    FieldsAllConcat(SlotPiece(e, i) + WordPiece(w, e, i), Pieces(w, e, i + 1, |w|));
    FieldsAllConcat(SlotPiece(e, i), WordPiece(w, e, i));
  }

  lemma TailTidy(gs: seq<Group>, w: seq<string>, e: Edits, i: nat, next: nat)
    requires gs != [] && Tidy(gs, w, e, i) && i <= next && gs[0].wTo <= next
    requires gs[0].wFrom == gs[0].wTo ==> gs[0].wFrom < next
    ensures Tidy(gs[1..], w, e, next)
  {
    forall t | next <= t < |w| && Edited(w, e, t) ensures CoversWord(gs[1..], t) {
      var k :| 0 <= k < |gs| && gs[k].wFrom <= t < gs[k].wTo;
      assert gs[k] == gs[1..][k - 1];
    }
    forall slot | next <= slot <= |w| && Inserts(e, slot) ensures CoversSlot(gs[1..], slot) {
      var k :| 0 <= k < |gs| && if gs[k].wFrom == gs[k].wTo then gs[k].wFrom == slot else gs[k].wFrom < slot < gs[k].wTo;
      assert gs[k] == gs[1..][k - 1];
    }
  }

  /** Before the first group there is nothing to cover position `i`. */
  lemma {:induction false} BeforeGroups(gs: seq<Group>, w: seq<string>, r: seq<string>, i: nat, j: nat, p: int)
    requires Tiles(gs, w, r, i, j) && (gs != [] ==> p < gs[0].wFrom)
    ensures !CoversWord(gs, p) && !CoversSlot(gs, p)
    decreases |gs|
  {
    forall k | 0 <= k < |gs| ensures gs[k].wFrom > p { StartsAfter(gs, w, r, i, j, k); }
  }

  lemma {:induction false} StartsAfter(gs: seq<Group>, w: seq<string>, r: seq<string>, i: nat, j: nat, k: nat)
    requires Tiles(gs, w, r, i, j) && k < |gs|
    ensures gs[0].wFrom <= gs[k].wFrom && (k > 0 ==> gs[0].wTo < gs[k].wFrom)
    decreases |gs|
  {
    if k > 0 { StartsAfter(gs[1..], w, r, gs[0].wTo, gs[0].rTo, k - 1); }
  }

  lemma TilesAdvance(gs: seq<Group>, w: seq<string>, r: seq<string>, i: nat, j: nat)
    requires Tiles(gs, w, r, i, j) && i < |w| && (gs != [] ==> i < gs[0].wFrom)
    ensures j < |r| && w[i] == r[j] && Tiles(gs, w, r, i + 1, j + 1)
  {
    if gs == [] {
      assert w[i..][0] == r[j..][0] && w[i + 1..] == w[i..][1..] && r[j + 1..] == r[j..][1..];
    } else {
      var g := gs[0];
      var a, b := w[i..g.wFrom], r[j..g.rFrom];
      assert a[0] == b[0] && w[i + 1..g.wFrom] == a[1..] && r[j + 1..g.rFrom] == b[1..];
    }
  }

  lemma PiecesFieldsSplit(w: seq<string>, e: Edits, i: nat, m: nat, n: nat)
    requires i <= m <= n <= |w| && SlotPiece(e, m) == []
    ensures FieldsAll(Pieces(w, e, i, n)) == FieldsAll(Pieces(w, e, i, m)) + FieldsAll(Pieces(w, e, m, n))
  {
    PiecesSplit(w, e, i, m, n);
    FieldsAllConcat(Pieces(w, e, i, m), Pieces(w, e, m, n));
  }

  lemma KeyAt(r: seq<string>, j: nat, from: nat, to: nat)
    requires j <= from <= to <= |r| && r[j..from] == []
    ensures r[j..] == r[from..to] + r[to..]
    ensures to < |r| ==> r[j..] == r[from..to] + [r[to]] + r[to + 1..]
  {}

  /** Position `i` lies before the next group: nothing was done there, and the key has its word. */
  lemma GapAdvance(gs: seq<Group>, w: seq<string>, r: seq<string>, e: Edits, i: nat, j: nat)
    requires i < |w| && Tiles(gs, w, r, i, j) && Tidy(gs, w, e, i) && (gs != [] ==> i < gs[0].wFrom)
    ensures !Edited(w, e, i) && !Inserts(e, i)
    ensures j < |r| && w[i] == r[j] && Tiles(gs, w, r, i + 1, j + 1)
  {
    BeforeGroups(gs, w, r, i, j, i);
    TilesAdvance(gs, w, r, i, j);
  }

  lemma PlainStep(w: seq<string>, e: Edits, i: nat)
    requires AllClean(w) && i < |w| && !Edited(w, e, i) && !Inserts(e, i)
    ensures FieldsAll(Pieces(w, e, i, |w|)) == [w[i]] + FieldsAll(Pieces(w, e, i + 1, |w|))
  {
    assert w[i] in w;
    StepOver(w, e, i);
  }

  /** Past a group over words the rest still tiles, and nothing was put in between. */
  lemma GroupAdvance(gs: seq<Group>, w: seq<string>, r: seq<string>, e: Edits, i: nat, j: nat)
    requires gs != [] && gs[0].wFrom == i < gs[0].wTo && Tiles(gs, w, r, i, j) && Tidy(gs, w, e, i)
    ensures Tiles(gs[1..], w, r, gs[0].wTo, gs[0].rTo) && Tidy(gs[1..], w, e, gs[0].wTo)
    ensures SlotPiece(e, gs[0].wTo) == [] && r[j..gs[0].rFrom] == []
  {
    var g := gs[0];
    TailTidy(gs, w, e, i, g.wTo);
    BeforeGroups(gs[1..], w, r, g.wTo, g.rTo, g.wTo);
  }

  /** Past an insertion point the rest still tiles, and the word behind it is untouched. */
  lemma InsertionAdvance(gs: seq<Group>, w: seq<string>, r: seq<string>, e: Edits, i: nat, j: nat)
    requires i < |w| && gs != [] && gs[0].wFrom == i == gs[0].wTo && Tiles(gs, w, r, i, j) && Tidy(gs, w, e, i)
    ensures gs[0].rTo < |r| && w[i] == r[gs[0].rTo] && r[j..gs[0].rFrom] == [] && !Edited(w, e, i)
    ensures Tidy(gs[1..], w, e, i + 1) && Tiles(gs[1..], w, r, i + 1, gs[0].rTo + 1)
  {
    TailTidy(gs, w, e, i, i + 1);
    TilesAdvance(gs[1..], w, r, i, gs[0].rTo);
    BeforeGroups(gs[1..], w, r, i, gs[0].rTo, i);
    NotCovered(gs, i);
  }

  lemma InsertionStep(w: seq<string>, e: Edits, i: nat)
    requires AllClean(w) && i < |w| && !Edited(w, e, i)
    ensures FieldsAll(Pieces(w, e, i, |w|)) == FieldsAll(Pieces(w, e, i, i)) + [w[i]] + FieldsAll(Pieces(w, e, i + 1, |w|))
  {
    assert w[i] in w;
    StepOver(w, e, i);
  }

  ghost predicate AllRight(gs: seq<Group>, w: seq<string>, r: seq<string>, e: Edits) {
    forall k | 0 <= k < |gs| :: LocallyRight(gs[k], w, r, e)
  }

  /** Where the reading of a locally right sentence stands: at word `i`, and word `j` of the key. */
  ghost predicate Ready(gs: seq<Group>, w: seq<string>, r: seq<string>, e: Edits, i: nat, j: nat) {
    Tiles(gs, w, r, i, j) && Tidy(gs, w, e, i)
  }

  /** What was read between two positions is what the key has there. */
  ghost predicate ReadsAlike(w: seq<string>, r: seq<string>, e: Edits, i: nat, j: nat, i': nat, j': nat, chunk: seq<string>) {
    && i < i' <= |w| && j <= |r| && j' <= |r|
    && FieldsAll(Pieces(w, e, i, |w|)) == chunk + FieldsAll(Pieces(w, e, i', |w|)) && r[j..] == chunk + r[j'..]
  }

  lemma ReadGap(gs: seq<Group>, w: seq<string>, r: seq<string>, e: Edits, i: nat, j: nat)
    returns (rest: seq<Group>, i': nat, j': nat, chunk: seq<string>)
    requires AllClean(w) && Ready(gs, w, r, e, i, j) && i < |w| && (gs != [] ==> i < gs[0].wFrom)
    ensures rest == gs && Ready(rest, w, r, e, i', j') && ReadsAlike(w, r, e, i, j, i', j', chunk)
  {
    GapAdvance(gs, w, r, e, i, j);
    PlainStep(w, e, i);
    KeyNext(r, j);
    rest, i', j', chunk := gs, i + 1, j + 1, [w[i]];
  }

  lemma KeyNext(r: seq<string>, j: nat)
    requires j < |r|
    ensures r[j..] == [r[j]] + r[j + 1..]
  {}

  lemma ReadGroup(gs: seq<Group>, w: seq<string>, r: seq<string>, e: Edits, i: nat, j: nat)
    returns (rest: seq<Group>, i': nat, j': nat, chunk: seq<string>)
    requires Ready(gs, w, r, e, i, j) && i < |w| && gs != [] && gs[0].wFrom == i < gs[0].wTo
    requires LocallyRight(gs[0], w, r, e)
    ensures rest == gs[1..] && Ready(rest, w, r, e, i', j') && ReadsAlike(w, r, e, i, j, i', j', chunk)
  {
    var g := gs[0];
    GroupAdvance(gs, w, r, e, i, j);
    PiecesFieldsSplit(w, e, i, g.wTo, |w|);
    KeyAt(r, j, g.rFrom, g.rTo);
    rest, i', j', chunk := gs[1..], g.wTo, g.rTo, r[g.rFrom..g.rTo];
  }

  lemma InsertionReads(w: seq<string>, r: seq<string>, e: Edits, i: nat, j: nat, g: Group) returns (chunk: seq<string>)
    requires AllClean(w) && i == g.wFrom == g.wTo < |w| && !Edited(w, e, i) && LocallyRight(g, w, r, e)
    requires j <= g.rFrom <= g.rTo < |r| && r[j..g.rFrom] == [] && w[i] == r[g.rTo]
    ensures ReadsAlike(w, r, e, i, j, i + 1, g.rTo + 1, chunk)
  {
    chunk := r[g.rFrom..g.rTo] + [w[i]];
    InsertionStep(w, e, i);
    KeyAt(r, j, g.rFrom, g.rTo);
  }

  lemma ReadInsertion(gs: seq<Group>, w: seq<string>, r: seq<string>, e: Edits, i: nat, j: nat)
    returns (rest: seq<Group>, i': nat, j': nat, chunk: seq<string>)
    requires AllClean(w) && Ready(gs, w, r, e, i, j) && i < |w| && gs != [] && gs[0].wFrom == i == gs[0].wTo
    requires LocallyRight(gs[0], w, r, e)
    ensures rest == gs[1..] && Ready(rest, w, r, e, i', j') && ReadsAlike(w, r, e, i, j, i', j', chunk)
  {
    InsertionAdvance(gs, w, r, e, i, j);
    chunk := InsertionReads(w, r, e, i, j, gs[0]);
    rest, i', j' := gs[1..], i + 1, gs[0].rTo + 1;
  }

  /** One word or one group further on. */
  lemma ReadOn(gs: seq<Group>, w: seq<string>, r: seq<string>, e: Edits, i: nat, j: nat)
    returns (rest: seq<Group>, i': nat, j': nat, chunk: seq<string>)
    requires AllClean(w) && Ready(gs, w, r, e, i, j) && i < |w| && (gs != [] ==> LocallyRight(gs[0], w, r, e))
    ensures rest == gs || (gs != [] && rest == gs[1..])
    ensures Ready(rest, w, r, e, i', j') && ReadsAlike(w, r, e, i, j, i', j', chunk)
  {
    if gs == [] || i < gs[0].wFrom {
      rest, i', j', chunk := ReadGap(gs, w, r, e, i, j);
    } else if i < gs[0].wTo {
      rest, i', j', chunk := ReadGroup(gs, w, r, e, i, j);
    } else {
      rest, i', j', chunk := ReadInsertion(gs, w, r, e, i, j);
    }
  }

  lemma ReadLast(gs: seq<Group>, w: seq<string>, r: seq<string>, e: Edits, i: nat, j: nat)
    requires i == |w| && j <= |r| && Ready(gs, w, r, e, i, j) && (gs != [] ==> LocallyRight(gs[0], w, r, e))
    ensures FieldsAll(Pieces(w, e, i, |w|)) == r[j..]
  {
    if gs != [] && gs[0].wFrom == i {
      LastInsertion(gs, w, r, e, i, j);
    } else {
      NothingLeft(gs, w, r, e, i, j);
    }
  }

  lemma {:induction false} BuiltIsKey(gs: seq<Group>, w: seq<string>, r: seq<string>, e: Edits, i: nat, j: nat)
    requires AllClean(w) && i <= |w| && j <= |r| && Ready(gs, w, r, e, i, j) && AllRight(gs, w, r, e)
    ensures FieldsAll(Pieces(w, e, i, |w|)) == r[j..]
    decreases |w| - i
  {
    FirstRight(gs, w, r, e);
    if i == |w| {
      ReadLast(gs, w, r, e, i, j);
    } else {
      var rest, i', j', chunk := ReadOn(gs, w, r, e, i, j);
      BuiltIsKey(rest, w, r, e, i', j');
    }
  }

  lemma NothingLeft(gs: seq<Group>, w: seq<string>, r: seq<string>, e: Edits, i: nat, j: nat)
    requires i == |w| && Tiles(gs, w, r, i, j) && Tidy(gs, w, e, i) && (gs != [] ==> gs[0].wFrom != i)
    ensures FieldsAll(Pieces(w, e, i, |w|)) == r[j..]
  {
    BeforeGroups(gs, w, r, i, j, i);
    assert !Inserts(e, i);
    assert gs == [] && w[i..] == [];
  }

  lemma FirstRight(gs: seq<Group>, w: seq<string>, r: seq<string>, e: Edits)
    requires AllRight(gs, w, r, e)
    ensures gs != [] ==> LocallyRight(gs[0], w, r, e) && AllRight(gs[1..], w, r, e)
  {}

  lemma LastInsertion(gs: seq<Group>, w: seq<string>, r: seq<string>, e: Edits, i: nat, j: nat)
    requires gs != [] && i == |w| == gs[0].wFrom == gs[0].wTo && Tiles(gs, w, r, i, j)
    requires LocallyRight(gs[0], w, r, e)
    ensures FieldsAll(Pieces(w, e, i, |w|)) == r[j..]
  {
    var g := gs[0];
    assert Tiles(gs[1..], w, r, g.wTo, g.rTo);
    assert gs[1..] == [] && w[i..] == [];
    KeyAt(r, j, g.rFrom, g.rTo);
  }

  /** An insertion point covers no word. */
  lemma NotCovered(gs: seq<Group>, i: nat)
    requires gs != [] && gs[0].wFrom == gs[0].wTo && !CoversWord(gs[1..], i)
    ensures !CoversWord(gs, i)
  {
    forall k | 0 <= k < |gs| ensures !(gs[k].wFrom <= i < gs[k].wTo) {
      if k > 0 { assert gs[k] == gs[1..][k - 1]; }
    }
  }

  // ----- Completeness -----

  /** What a hit needs is the words; spacing does not matter. */
  lemma NormReadsWords(a: string, b: string, check: Check, lower: string -> string)
    requires Fields(a) == Fields(b)
    ensures Norm(a, check, lower) == Norm(b, check, lower)
  {
    CollapseCanonical(a, b);
  }

  lemma {:induction false} PlainPieces(w: seq<string>, e: Edits, i: nat, n: nat)
    requires i <= n <= |w| && (forall slot | i <= slot <= n :: !Inserts(e, slot)) && (forall t | i <= t < n :: !Marked(e, t))
    ensures Pieces(w, e, i, n) == w[i..n]
    decreases n - i
  {
    if i < n {
      PlainPieces(w, e, i + 1, n);
      assert w[i..n] == [w[i]] + w[i + 1..n];
    }
  }

  lemma DifferentSlices(g: Group, w: seq<string>, r: seq<string>)
    requires StartsApart(g, w, r) && (g.wFrom < g.wTo || g.rFrom < g.rTo)
    requires g.wFrom <= g.wTo <= |w| && g.rFrom <= g.rTo <= |r|
    ensures w[g.wFrom..g.wTo] != r[g.rFrom..g.rTo]
  {
    var a, b := w[g.wFrom..g.wTo], r[g.rFrom..g.rTo];
    if a != [] && b != [] { assert a[0] == w[g.wFrom] && b[0] == r[g.rFrom]; }
  }

  /** A span that reads as the key's wording was touched. */
  lemma RightIsTouched(g: Group, w: seq<string>, r: seq<string>, e: Edits, span: Span)
    requires AllClean(w) && LocallyRight(g, w, r, e) && StartsApart(g, w, r)
    requires g.wFrom < g.wTo || g.rFrom < g.rTo
    requires span.wFrom == g.wFrom && span.wTo == g.wTo
    ensures Touched(e, span)
  {
    var s := w[g.wFrom..g.wTo];
    CleanSlice(w, g.wFrom, g.wTo);
    FieldsAllClean(s);
    DifferentSlices(g, w, r);
    if !Touched(e, span) { PlainPieces(w, e, g.wFrom, g.wTo); }
  }

  lemma {:induction false} NoneSoft(spans: seq<Span>)
    requires forall k | 0 <= k < |spans| :: !spans[k].soft
    ensures HardOf(spans) == spans
  {
    if spans != [] {
      forall k | 0 <= k < |spans[1..]| ensures !spans[1..][k].soft { assert spans[1..][k] == spans[k + 1]; }
      NoneSoft(spans[1..]);
    }
  }

  /** Every span reads as the key's wording. */
  ghost predicate EverySpanRight(item: Item, check: Check, e: Edits, lower: string -> string) {
    var w, hard := Words(item.wrong), HardSpans(item, check, lower);
    forall k | 0 <= k < |hard| :: Fields(LocalFix(w, e, hard[k])) == Fields(hard[k].fix)
  }

  lemma {:induction false} CleanSlice(r: seq<string>, i: nat, j: nat)
    requires AllClean(r) && i <= j <= |r|
    ensures AllClean(r[i..j])
  {
    forall x | x in r[i..j] ensures Clean(x) { assert x in r; }
  }

  /** A right span is a locally right group, and the group's state is `Fixed`. */
  lemma RightSpan(g: Group, w: seq<string>, r: seq<string>, e: Edits, soft: set<SpanKey>, check: Check, lower: string -> string)
    requires AllClean(w) && AllClean(r) && StartsApart(g, w, r)
    requires g.wFrom <= g.wTo <= |w| && g.rFrom <= g.rTo <= |r| && (g.wFrom < g.wTo || g.rFrom < g.rTo)
    requires Fields(LocalFix(w, e, ToSpan(g, w, r, soft))) == Fields(ToSpan(g, w, r, soft).fix)
    ensures LocallyRight(g, w, r, e)
    ensures StateOf(w, e, ToSpan(g, w, r, soft), check, lower).outcome == Fixed
  {
    var span := ToSpan(g, w, r, soft);
    CleanSlice(r, g.rFrom, g.rTo);
    JoinRoundTrip(r[g.rFrom..g.rTo]);
    FieldsOfJoin(Pieces(w, e, g.wFrom, g.wTo));
    RightIsTouched(g, w, r, e, span);
    NormReadsWords(LocalFix(w, e, span), span.fix, check, lower);
  }

  lemma EditAccounted(w: seq<string>, e: Edits, hard: seq<Span>, i: int)
    requires Edited(w, e, i)
    ensures InSpan(hard, i) || EditAt(i) in StrayEdits(w, e, hard)
  {}

  lemma InsertionAccounted(w: seq<string>, e: Edits, hard: seq<Span>, slot: int)
    requires Inserts(e, slot)
    ensures InSpanSlot(hard, slot) || InsertAt(slot) in StrayEdits(w, e, hard)
  {}

  lemma NoStrayIsTidy(gs: seq<Group>, w: seq<string>, r: seq<string>, soft: set<SpanKey>, e: Edits)
    requires StrayEdits(w, e, ToSpans(gs, w, r, soft)) == {}
    ensures Tidy(gs, w, e, 0)
  {
    var spans := ToSpans(gs, w, r, soft);
    forall t | 0 <= t < |w| && Edited(w, e, t) ensures CoversWord(gs, t) {
      EditAccounted(w, e, spans, t);
      var k :| 0 <= k < |spans| && spans[k].wFrom <= t < spans[k].wTo;
      assert gs[k].wFrom <= t < gs[k].wTo;
    }
    forall slot | 0 <= slot <= |w| && Inserts(e, slot) ensures CoversSlot(gs, slot) {
      InsertionAccounted(w, e, spans, slot);
      var k :| 0 <= k < |spans| && if spans[k].wFrom == spans[k].wTo then spans[k].wFrom == slot else spans[k].wFrom < slot < spans[k].wTo;
      assert gs[k].wFrom == spans[k].wFrom && gs[k].wTo == spans[k].wTo;
    }
  }

  /** An item whose spans exist has a non-empty faulty sentence and a key. */
  lemma SpansNeedKey(item: Item, check: Check, lower: string -> string)
    requires SpansOf(item, check, lower) != []
    ensures var w, r := Words(item.wrong), KeyWords(item);
            && AllClean(w) && AllClean(r) && w != [] && r != [] && Variants(item) != []
            && r == Fields(Variants(item)[0])
            && SpansOf(item, check, lower) == ToSpans(GroupsOf(w, r, check, lower), w, r, item.soft)
  {
    WordsAreFields(item.wrong);
    if Variants(item) != [] { WordsAreFields(Variants(item)[0]); }
  }

  /** The words of the built sentence are the key's words. */
  lemma BuiltWords(item: Item, check: Check, e: Edits, lower: string -> string)
    requires SpansOf(item, check, lower) != [] && (forall s | s in SpansOf(item, check, lower) :: !s.soft)
    requires StrayEdits(Words(item.wrong), e, HardSpans(item, check, lower)) == {}
    requires EverySpanRight(item, check, e, lower)
    ensures Fields(Built(item, e)) == KeyWords(item)
    ensures forall k | 0 <= k < |HardSpans(item, check, lower)| ::
              StateOf(Words(item.wrong), e, HardSpans(item, check, lower)[k], check, lower).outcome == Fixed
  {
    var w, r := Words(item.wrong), KeyWords(item);
    var gs, hard := GroupsOf(w, r, check, lower), HardSpans(item, check, lower);
    SpansNeedKey(item, check, lower);
    NoneSoft(SpansOf(item, check, lower));
    SpansArePatch(w, r, check, lower);
    GroupsStartApart(w, r, check, lower);
    forall k | 0 <= k < |gs|
      ensures LocallyRight(gs[k], w, r, e) && StateOf(w, e, hard[k], check, lower).outcome == Fixed
    {
      TilesFit(gs, w, r, 0, 0, k);
      TilesNonEmpty(gs, w, r, 0, 0, k);
      assert hard[k] == ToSpan(gs[k], w, r, item.soft);
      RightSpan(gs[k], w, r, e, item.soft, check, lower);
    }
    NoStrayIsTidy(gs, w, r, item.soft, e);
    BuiltIsKey(gs, w, r, e, 0, 0);
    FieldsOfJoin(Pieces(w, e, 0, |w|));
    assert r[0..] == r;
  }

  lemma {:induction false} TilesNonEmpty(gs: seq<Group>, w: seq<string>, r: seq<string>, i: nat, j: nat, k: nat)
    requires Tiles(gs, w, r, i, j) && k < |gs|
    ensures gs[k].wFrom < gs[k].wTo || gs[k].rFrom < gs[k].rTo
    decreases |gs|
  {
    if k > 0 { TilesNonEmpty(gs[1..], w, r, gs[0].wTo, gs[0].rTo, k - 1); }
  }

  /** Correcting every mistake where it stands, and nothing else, makes the whole sentence
      right: for an item with at least one span and none soft, the sentence built has exactly
      the key's words, every span is fixed, nothing is stray, the verdict is exact, and the
      answer passes without a teacher whenever the check may pass anything. */
  lemma LocalFixesPass(item: Item, check: Check, e: Edits, lower: string -> string)
    requires SpansOf(item, check, lower) != [] && (forall s | s in SpansOf(item, check, lower) :: !s.soft)
    requires StrayEdits(Words(item.wrong), e, HardSpans(item, check, lower)) == {}
    requires EverySpanRight(item, check, e, lower)
    ensures var j := Judge(check, item, e, lower);
            && Collapse(Built(item, e)) == Collapse(Variants(item)[0])
            && j.verdict == VExact && j.stray == {} && j.fixedCount == j.spanCount == |SpansOf(item, check, lower)|
            && (Route(check, j) == Pass <==> check.on && check.exactPass)
  {
    var w, hard := Words(item.wrong), HardSpans(item, check, lower);
    SpansNeedKey(item, check, lower);
    NoneSoft(SpansOf(item, check, lower));
    BuiltWords(item, check, e, lower);
    CollapseCanonical(Built(item, e), Variants(item)[0]);
    NormReadsWords(Variants(item)[0], Built(item, e), check, lower);
    assert StateOf(w, e, hard[0], check, lower).outcome == Fixed;
    TouchedSomething(e, hard[0]);
    JudgedExact(item, check, e, lower);
  }

  /** A touched sentence that is a variant, with every span fixed and nothing stray. */
  lemma JudgedExact(item: Item, check: Check, e: Edits, lower: string -> string)
    requires !Untouched(e) && Exact(Built(item, e), Variants(item), check, lower)
    requires StrayEdits(Words(item.wrong), e, HardSpans(item, check, lower)) == {}
    requires forall k | 0 <= k < |HardSpans(item, check, lower)| ::
               StateOf(Words(item.wrong), e, HardSpans(item, check, lower)[k], check, lower).outcome == Fixed
    ensures var j := Judge(check, item, e, lower);
            && j.built == Built(item, e) && j.verdict == VExact && j.stray == {}
            && j.fixedCount == j.spanCount == |HardSpans(item, check, lower)|
            && (Route(check, j) == Pass <==> check.on && check.exactPass)
  {
    var w, hard, j := Words(item.wrong), HardSpans(item, check, lower), Judge(check, item, e, lower);
    assert j.states == States(w, e, hard, check, lower);
    assert forall k | 0 <= k < |hard| :: j.states[k].outcome == Fixed;
  }

  lemma TouchedSomething(e: Edits, span: Span)
    requires Touched(e, span)
    ensures !Untouched(e)
  {
    if span.wFrom == span.wTo {
      assert span.wFrom in e.ins;
    } else if exists i | span.wFrom <= i < span.wTo :: Marked(e, i) {
      var i :| span.wFrom <= i < span.wTo && Marked(e, i);
      assert i in e.marked && e.marked[i];
    } else {
      var slot :| span.wFrom <= slot <= span.wTo && Inserts(e, slot);
      assert slot in e.ins;
    }
  }

  // ----- The edits that write each span's fix in place -----

  function TextAt(gs: seq<Group>, r: seq<string>, i: int): string {
    if gs == [] then ""
    else if gs[0].wFrom == i then (if gs[0].rFrom <= gs[0].rTo <= |r| then Join(r[gs[0].rFrom..gs[0].rTo]) else "")
    else TextAt(gs[1..], r, i)
  }

  predicate InsertionAt(gs: seq<Group>, slot: int) {
    exists k | 0 <= k < |gs| :: gs[k].wFrom == slot == gs[k].wTo
  }

  /** The first word of each span carries the whole fix, its other words are struck out, and
      missing words are inserted at their slot. */
  function InPlace(gs: seq<Group>, w: seq<string>, r: seq<string>): Edits {
    Edits(
      map i: int | 0 <= i < |w| && CoversWord(gs, i) :: true,
      map i: int | 0 <= i < |w| && CoversWord(gs, i) :: TextAt(gs, r, i),
      map slot: int | 0 <= slot <= |w| && InsertionAt(gs, slot) :: TextAt(gs, r, slot))
  }

  lemma {:induction false} TextAtGroup(gs: seq<Group>, w: seq<string>, r: seq<string>, i: nat, j: nat, k: nat, p: int)
    requires Tiles(gs, w, r, i, j) && k < |gs| && gs[k].wFrom <= p <= gs[k].wTo
    ensures gs[k].rFrom <= gs[k].rTo <= |r|
    ensures TextAt(gs, r, p) == if p == gs[k].wFrom then Join(r[gs[k].rFrom..gs[k].rTo]) else ""
    decreases |gs|
  {
    TilesFit(gs, w, r, i, j, k);
    StartsAfter(gs, w, r, i, j, k);
    if k > 0 {
      TextAtGroup(gs[1..], w, r, gs[0].wTo, gs[0].rTo, k - 1, p);
    } else if p != gs[0].wFrom {
      NoTextBefore(gs[1..], w, r, gs[0].wTo, gs[0].rTo, p);
    }
  }

  lemma {:induction false} NoTextBefore(gs: seq<Group>, w: seq<string>, r: seq<string>, i: nat, j: nat, p: int)
    requires Tiles(gs, w, r, i, j) && (gs != [] ==> p < gs[0].wFrom)
    ensures TextAt(gs, r, p) == ""
    decreases |gs|
  {
    if gs != [] { NoTextBefore(gs[1..], w, r, gs[0].wTo, gs[0].rTo, p); }
  }

  /** No insertion at the edges of a group that covers words. */
  lemma NoInsertionInside(gs: seq<Group>, w: seq<string>, r: seq<string>, k: nat, slot: int)
    requires Tiles(gs, w, r, 0, 0) && k < |gs| && gs[k].wFrom < gs[k].wTo && gs[k].wFrom <= slot <= gs[k].wTo
    ensures !InsertionAt(gs, slot)
  {
    forall l | 0 <= l < |gs| ensures !(gs[l].wFrom == slot == gs[l].wTo) {
      GroupsApart(gs, w, r, 0, 0, k, l);
    }
  }

  lemma {:induction false} GroupsApart(gs: seq<Group>, w: seq<string>, r: seq<string>, i: nat, j: nat, k: nat, l: nat)
    requires Tiles(gs, w, r, i, j) && k < |gs| && l < |gs|
    ensures k < l ==> gs[k].wTo < gs[l].wFrom
    ensures l < k ==> gs[l].wTo < gs[k].wFrom
    decreases |gs|
  {
    if k > 0 && l > 0 {
      GroupsApart(gs[1..], w, r, gs[0].wTo, gs[0].rTo, k - 1, l - 1);
    } else {
      StartsAfter(gs, w, r, i, j, k);
      StartsAfter(gs, w, r, i, j, l);
    }
  }

  lemma {:induction false} StruckOut(w: seq<string>, e: Edits, i: nat, n: nat)
    requires i <= n <= |w| && (forall slot | i <= slot <= n :: !Inserts(e, slot))
    requires forall t | i <= t < n :: Marked(e, t) && t in e.fix && e.fix[t] == ""
    ensures Pieces(w, e, i, n) == []
    decreases n - i
  {
    if i < n { StruckOut(w, e, i + 1, n); }
  }

  lemma TrimJoin(ws: seq<string>)
    requires AllClean(ws)
    ensures Trim(Join(ws)) == Join(ws) && (Join(ws) == "" <==> ws == [])
    ensures FieldsAll([Join(ws)]) == ws && FieldsAll([]) == []
  {
    if ws != [] { JoinEdges(ws); }
    TrimIdentity(Join(ws));
    JoinRoundTrip(ws);
    assert [Join(ws)][1..] == [];
  }

  /** A group whose slots are empty and whose later words are struck out is its first word's text. */
  lemma FirstWordOnly(w: seq<string>, e: Edits, i: nat, n: nat, text: string)
    requires i < n <= |w| && (forall slot | i <= slot <= n :: !Inserts(e, slot))
    requires forall t | i < t < n :: Marked(e, t) && t in e.fix && e.fix[t] == ""
    requires Marked(e, i) && i in e.fix && e.fix[i] == text && Trim(text) == text
    ensures Pieces(w, e, i, n) == if text == "" then [] else [text]
  {
    StruckOut(w, e, i + 1, n);
  }

  /** Under the in-place edits every group's pieces are its fix, as one piece or as none. */
  lemma InPlacePieces(gs: seq<Group>, w: seq<string>, r: seq<string>, k: nat)
    requires Tiles(gs, w, r, 0, 0) && AllClean(r) && k < |gs|
    ensures var g, e := gs[k], InPlace(gs, w, r);
            && g.wFrom <= g.wTo <= |w| && g.rFrom <= g.rTo <= |r|
            && Pieces(w, e, g.wFrom, g.wTo) ==
               if g.rFrom == g.rTo then [] else [Join(r[g.rFrom..g.rTo])]
  {
    var g, e := gs[k], InPlace(gs, w, r);
    TilesFit(gs, w, r, 0, 0, k);
    CleanSlice(r, g.rFrom, g.rTo);
    TrimJoin(r[g.rFrom..g.rTo]);
    TextAtGroup(gs, w, r, 0, 0, k, g.wFrom);
    if g.wFrom == g.wTo {
      assert InsertionAt(gs, g.wFrom);
      assert e.ins[g.wFrom] == Join(r[g.rFrom..g.rTo]);
    } else {
      forall slot | g.wFrom <= slot <= g.wTo ensures !Inserts(e, slot) { InPlaceSlot(gs, w, r, k, slot); }
      forall t | g.wFrom < t < g.wTo ensures Marked(e, t) && t in e.fix && e.fix[t] == "" {
        InPlaceLater(gs, w, r, k, t);
      }
      assert CoversWord(gs, g.wFrom);
      FirstWordOnly(w, e, g.wFrom, g.wTo, Join(r[g.rFrom..g.rTo]));
    }
  }

  lemma InPlaceSlot(gs: seq<Group>, w: seq<string>, r: seq<string>, k: nat, slot: int)
    requires Tiles(gs, w, r, 0, 0) && k < |gs| && gs[k].wFrom < gs[k].wTo && gs[k].wFrom <= slot <= gs[k].wTo
    ensures !Inserts(InPlace(gs, w, r), slot)
  {
    NoInsertionInside(gs, w, r, k, slot);
  }

  lemma InPlaceLater(gs: seq<Group>, w: seq<string>, r: seq<string>, k: nat, t: nat)
    requires Tiles(gs, w, r, 0, 0) && k < |gs| && gs[k].wFrom < t < gs[k].wTo <= |w|
    ensures var e := InPlace(gs, w, r); Marked(e, t) && t in e.fix && e.fix[t] == ""
  {
    assert CoversWord(gs, t);
    TextAtGroup(gs, w, r, 0, 0, k, t);
  }

  lemma InPlaceNoStray(gs: seq<Group>, w: seq<string>, r: seq<string>, soft: set<SpanKey>)
    ensures StrayEdits(w, InPlace(gs, w, r), ToSpans(gs, w, r, soft)) == {}
  {
    var e, spans := InPlace(gs, w, r), ToSpans(gs, w, r, soft);
    forall i | 0 <= i < |w| && Edited(w, e, i) ensures InSpan(spans, i) {
      var k :| 0 <= k < |gs| && gs[k].wFrom <= i < gs[k].wTo;
      assert spans[k].wFrom <= i < spans[k].wTo;
    }
    forall slot | slot in e.ins ensures InSpanSlot(spans, slot) {
      var k :| 0 <= k < |gs| && gs[k].wFrom == slot == gs[k].wTo;
      assert spans[k].wFrom == spans[k].wTo == slot;
    }
  }

  /** The student who writes each span's fix in place passes. */
  lemma InPlacePasses(item: Item, check: Check, lower: string -> string)
    requires SpansOf(item, check, lower) != [] && (forall s | s in SpansOf(item, check, lower) :: !s.soft)
    ensures var w, r := Words(item.wrong), KeyWords(item);
            var j := Judge(check, item, InPlace(GroupsOf(w, r, check, lower), w, r), lower);
            && Collapse(j.built) == Collapse(Variants(item)[0])
            && j.verdict == VExact && j.stray == {} && j.fixedCount == j.spanCount
            && (Route(check, j) == Pass <==> check.on && check.exactPass)
  {
    var w, r := Words(item.wrong), KeyWords(item);
    var gs, hard := GroupsOf(w, r, check, lower), HardSpans(item, check, lower);
    var e := InPlace(gs, w, r);
    SpansNeedKey(item, check, lower);
    NoneSoft(SpansOf(item, check, lower));
    SpansArePatch(w, r, check, lower);
    InPlaceNoStray(gs, w, r, item.soft);
    forall k | 0 <= k < |hard| ensures Fields(LocalFix(w, e, hard[k])) == Fields(hard[k].fix) {
      InPlaceRight(gs, w, r, item.soft, k);
    }
    LocalFixesPass(item, check, e, lower);
  }

  lemma InPlaceRight(gs: seq<Group>, w: seq<string>, r: seq<string>, soft: set<SpanKey>, k: nat)
    requires Tiles(gs, w, r, 0, 0) && AllClean(r) && k < |gs|
    ensures var span := ToSpan(gs[k], w, r, soft);
            Fits(span, w) && Fields(LocalFix(w, InPlace(gs, w, r), span)) == Fields(span.fix)
  {
    var g := gs[k];
    InPlacePieces(gs, w, r, k);
    var text := r[g.rFrom..g.rTo];
    CleanSlice(r, g.rFrom, g.rTo);
    TrimJoin(text);
    assert Join([Join(text)]) == Join(text);
  }
}
