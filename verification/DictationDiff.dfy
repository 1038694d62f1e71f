/** The word diff of a dictation: alignment, seam pairing, word boundaries, counts and score. */
module DictationDiff {
  import opened Sequences
  import opened Text
  import opened Tokens
  import opened Alignment
  import opened Classify

  datatype DiffOp =
    | EqOp(i: nat, w: string, p: string)
    | SubOp(i: nat, n: nat, wrote: string, expected: string, p: string, cls: ErrorClass, near: bool, focus: bool)
    | DelOp(i: nat, expected: string, p: string, focus: bool)
    | InsOp(wrote: string, p: string)

  datatype Counts = Counts(total: nat, exact: nat, near: nat, wrong: nat, missing: nat, extra: nat)

  datatype DiffResult = DiffResult(ops: seq<DiffOp>, words: Counts, score: real, num2: nat)

  /** The rules one diff is made under. */
  datatype Rules = Rules(marking: Marking, pack: Pack, focus: set<nat>, abc: Alphabet)

  // ----- Word boundaries -----

  function Glued(ts: seq<DcToken>, abc: Alphabet): string {
    if ts == [] then "" else abc.lower(ts[0].w) + Glued(ts[1..], abc)
  }

  predicate JoinedAt(dels: seq<DcToken>, p: nat, inss: seq<DcToken>, q: nat, n: nat, abc: Alphabet)
    requires p < |dels| && q < |inss|
  {
    p + n <= |dels| && Glued(dels[p..p + n], abc) == Glued([inss[q]], abc)
  }

  predicate SplitAt(dels: seq<DcToken>, p: nat, inss: seq<DcToken>, q: nat, n: nat, abc: Alphabet)
    requires p < |dels| && q < |inss|
  {
    q + n <= |inss| && Glued(inss[q..q + n], abc) == Glued([dels[p]], abc)
  }

  /** How many expected and how many typed words the next substitution covers: (n, 1) or (1, n)
      for a boundary error of two or three words, the shortest first, else (1, 1). */
  function Cover(dels: seq<DcToken>, p: nat, inss: seq<DcToken>, q: nat, abc: Alphabet): (c: (nat, nat))
    requires p < |dels| && q < |inss|
    ensures 1 <= c.0 <= 3 && 1 <= c.1 <= 3 && p + c.0 <= |dels| && q + c.1 <= |inss| && (c.0 == 1 || c.1 == 1)
  {
    if JoinedAt(dels, p, inss, q, 2, abc) then (2, 1)
    else if SplitAt(dels, p, inss, q, 2, abc) then (1, 2)
    else if JoinedAt(dels, p, inss, q, 3, abc) then (3, 1)
    else if SplitAt(dels, p, inss, q, 3, abc) then (1, 3)
    else (1, 1)
  }

  method BoundaryAt(dels: seq<DcToken>, p: nat, inss: seq<DcToken>, q: nat, abc: Alphabet) returns (found: bool, dn: nat, gn: nat)
    requires p < |dels| && q < |inss|
    ensures (dn, gn) == Cover(dels, p, inss, q, abc)
    ensures found <==> (dn, gn) != (1, 1)
  {
    var n: nat := 2;
    while n <= 3
      invariant 2 <= n <= 4
      invariant forall k | 2 <= k < n :: !JoinedAt(dels, p, inss, q, k, abc) && !SplitAt(dels, p, inss, q, k, abc)
    {
      if JoinedAt(dels, p, inss, q, n, abc) { return true, n, 1; }
      if SplitAt(dels, p, inss, q, n, abc) { return true, 1, n; }
      n := n + 1;
    }
    return false, 1, 1;
  }

  // ----- One seam -----

  function Written(ts: seq<DcToken>): (ws: seq<string>)
    ensures |ws| == |ts|
  {
    seq(|ts|, k requires 0 <= k < |ts| => ts[k].w)
  }

  /** The substitution of `gn` typed words for `dn` expected ones. */
  function Substitution(r: Rules, covered: seq<DcToken>, wrote: seq<DcToken>): DiffOp
    requires covered != [] && wrote != []
  {
    var focus := exists k | 0 <= k < |covered| :: covered[k].i in r.focus;
    var last := covered[|covered| - 1];
    if |covered| == 1 && |wrote| == 1 then
      var cls := ClassOf(covered[0], wrote[0], r.marking, r.pack, r.abc);
      SubOp(covered[0].i, 1, wrote[0].w, covered[0].w, last.p, cls,
            r.marking.near != Strict && Nearable(cls) && !focus, focus)
    else
      SubOp(covered[0].i, |covered|, Join(Written(wrote)), Join(Written(covered)), last.p, Boundary, false, focus)
  }

  function Missing(r: Rules, e: DcToken): DiffOp { DelOp(e.i, e.w, e.p, e.i in r.focus) }

  /** The next operation of a seam, and the cursors after it. */
  function SeamStep(r: Rules, dels: seq<DcToken>, p: nat, inss: seq<DcToken>, q: nat): (s: (DiffOp, nat, nat))
    requires p <= |dels| && q <= |inss| && (p < |dels| || q < |inss|)
    ensures p <= s.1 <= |dels| && q <= s.2 <= |inss| && p + q < s.1 + s.2
  {
    if p < |dels| && q < |inss| then
      var (dn, gn) := Cover(dels, p, inss, q, r.abc);
      (Substitution(r, dels[p..p + dn], inss[q..q + gn]), p + dn, q + gn)
    else if p < |dels| then (Missing(r, dels[p]), p + 1, q)
    else (InsOp(inss[q].w, inss[q].p), p, q + 1)
  }

  function Seam(r: Rules, dels: seq<DcToken>, p: nat, inss: seq<DcToken>, q: nat): seq<DiffOp>
    requires p <= |dels| && q <= |inss|
    decreases |dels| - p + |inss| - q
  {
    if p == |dels| && q == |inss| then []
    else
      var (op, p', q') := SeamStep(r, dels, p, inss, q);
      [op] + Seam(r, dels, p', inss, q')
  }

  /** How one step of a seam is decided, from the lists and the cursors. */
  type Stepper = (seq<DcToken>, nat, seq<DcToken>, nat) -> (DiffOp, nat, nat)

  predicate Open(dels: seq<DcToken>, p: nat, inss: seq<DcToken>, q: nat) {
    p <= |dels| && q <= |inss| && (p < |dels| || q < |inss|)
  }

  function StepOf(r: Rules): Stepper {
    (dels: seq<DcToken>, p: nat, inss: seq<DcToken>, q: nat) =>
      if Open(dels, p, inss, q) then SeamStep(r, dels, p, inss, q) else (InsOp("", ""), p, q)
  }

  /** Every step moves a cursor, and none past its list; while both lists have words left both move,
      and when one has run out it stays. */
  ghost predicate Advances(step: Stepper) {
    forall dels, p: nat, inss, q: nat | Open(dels, p, inss, q) :: StepFits(dels, p, inss, q, step(dels, p, inss, q))
  }

  predicate StepFits(dels: seq<DcToken>, p: nat, inss: seq<DcToken>, q: nat, s: (DiffOp, nat, nat)) {
    p <= s.1 <= |dels| && q <= s.2 <= |inss| && p + q < s.1 + s.2
  }

  lemma StepAdvances(r: Rules)
    ensures Advances(StepOf(r))
  {}

  function SeamBy(step: Stepper, dels: seq<DcToken>, p: nat, inss: seq<DcToken>, q: nat): seq<DiffOp>
    requires Advances(step) && p <= |dels| && q <= |inss|
    decreases |dels| - p + |inss| - q
  {
    if !Open(dels, p, inss, q) then []
    else
      var s := step(dels, p, inss, q);
      assert StepFits(dels, p, inss, q, s);
      [s.0] + SeamBy(step, dels, s.1, inss, s.2)
  }

  lemma {:induction false} SeamIsBy(r: Rules, dels: seq<DcToken>, p: nat, inss: seq<DcToken>, q: nat)
    requires Advances(StepOf(r)) && p <= |dels| && q <= |inss|
    ensures Seam(r, dels, p, inss, q) == SeamBy(StepOf(r), dels, p, inss, q)
    decreases |dels| - p + |inss| - q
  {
    if Open(dels, p, inss, q) {
      var s := SeamStep(r, dels, p, inss, q);
      SeamIsBy(r, dels, s.1, inss, s.2);
    }
  }

  /** The loops over a seam: substitutions while both sides have words left, then what was omitted,
      then what was added. */
  method PairWith(step: Stepper, dels: seq<DcToken>, inss: seq<DcToken>) returns (ops: seq<DiffOp>)
    requires Advances(step)
    ensures ops == SeamBy(step, dels, 0, inss, 0)
  {
    ops := [];
    var p: nat, q: nat := 0, 0;
    ghost var all := SeamBy(step, dels, 0, inss, 0);
    while p < |dels| && q < |inss|
      invariant p <= |dels| && q <= |inss| && all == ops + SeamBy(step, dels, p, inss, q)
      decreases |dels| - p + |inss| - q
    {
      ops, p, q := StepOnce(step, dels, p, inss, q, ops, all);
    }
    while p < |dels|
      invariant p <= |dels| && q <= |inss| && all == ops + SeamBy(step, dels, p, inss, q)
      decreases |dels| - p + |inss| - q
    {
      ops, p, q := StepOnce(step, dels, p, inss, q, ops, all);
    }
    while q < |inss|
      invariant p == |dels| && q <= |inss| && all == ops + SeamBy(step, dels, p, inss, q)
      decreases |dels| - p + |inss| - q
    {
      ops, p, q := StepOnce(step, dels, p, inss, q, ops, all);
    }
  }

  method StepOnce(step: Stepper, dels: seq<DcToken>, p: nat, inss: seq<DcToken>, q: nat, ops: seq<DiffOp>, ghost all: seq<DiffOp>)
    returns (more: seq<DiffOp>, p': nat, q': nat)
    requires Advances(step) && Open(dels, p, inss, q) && all == ops + SeamBy(step, dels, p, inss, q)
    ensures p <= p' <= |dels| && q <= q' <= |inss| && p + q < p' + q'
    ensures all == more + SeamBy(step, dels, p', inss, q')
  {
    var s := step(dels, p, inss, q);
    assert StepFits(dels, p, inss, q, s);
    Reassociate(ops, s.0, SeamBy(step, dels, s.1, inss, s.2));
    more, p', q' := ops + [s.0], s.1, s.2;
  }

  method PairSeam(r: Rules, dels: seq<DcToken>, inss: seq<DcToken>) returns (ops: seq<DiffOp>)
    ensures ops == Seam(r, dels, 0, inss, 0)
  {
    StepAdvances(r);
    SeamIsBy(r, dels, 0, inss, 0);
    ops := PairWith(StepOf(r), dels, inss);
  }

  // ----- The whole diff -----

  /** Expected positions and typed positions, each token carrying its own. */
  ghost predicate Numbered(E: seq<DcToken>) { forall k | 0 <= k < |E| :: E[k].i == k }

  predicate InRange(raw: seq<Op>, E: seq<DcToken>, T: seq<DcToken>) {
    forall op | op in raw :: (op.OnlyB? || op.ai < |E|) && (op.OnlyA? || op.bi < |T|)
  }

  /** How many steps of the walk stand before its next kept pair. */
  function SeamLength(raw: seq<Op>, x: nat): (n: nat)
    requires x <= |raw|
    ensures x + n <= |raw| && (forall t | x <= t < x + n :: !raw[t].Both?)
    ensures x + n < |raw| ==> raw[x + n].Both?
    decreases |raw| - x
  {
    if x == |raw| || raw[x].Both? then 0 else 1 + SeamLength(raw, x + 1)
  }

  function Kept(E: seq<DcToken>, T: seq<DcToken>, raw: seq<Op>, x: nat): DiffOp
    requires x < |raw| && raw[x].Both? && InRange(raw, E, T)
  {
    assert raw[x] in raw;
    EqOp(E[raw[x].ai].i, T[raw[x].bi].w, T[raw[x].bi].p)
  }

  function DiffFrom(r: Rules, E: seq<DcToken>, T: seq<DcToken>, raw: seq<Op>, x: nat): seq<DiffOp>
    requires x <= |raw| && InRange(raw, E, T)
    decreases |raw| - x
  {
    if x == |raw| then []
    else if raw[x].Both? then [Kept(E, T, raw, x)] + DiffFrom(r, E, T, raw, x + 1)
    else
      var y := x + SeamLength(raw, x);
      SeamBetween(r, E, T, raw[x..y]) + DiffFrom(r, E, T, raw, y)
  }

  /** The seam that a stretch without kept pairs makes. */
  function SeamBetween(r: Rules, E: seq<DcToken>, T: seq<DcToken>, stretch: seq<Op>): seq<DiffOp>
    requires InRange(stretch, E, T)
  {
    Seam(r, SpelledA(E, stretch), 0, SpelledB(T, stretch), 0)
  }

  function RawOf(r: Rules, E: seq<DcToken>, T: seq<DcToken>): seq<Op> {
    Walk(SameKey(r.marking, r.pack, r.abc), E, T, 0, 0)
  }

  lemma RawInRange(r: Rules, E: seq<DcToken>, T: seq<DcToken>)
    ensures InRange(RawOf(r, E, T), E, T)
  {
    var rel := SameKey(r.marking, r.pack, r.abc);
    WalkIsScript(rel, E, T, 0, 0);
    ScriptBounds(rel, E, T, RawOf(r, E, T), 0, 0);
  }

  function DiffOps(r: Rules, E: seq<DcToken>, T: seq<DcToken>): seq<DiffOp> {
    RawInRange(r, E, T);
    DiffFrom(r, E, T, RawOf(r, E, T), 0)
  }

  // ----- Counts and score -----

  function Plus(a: Counts, b: Counts): Counts {
    Counts(a.total + b.total, a.exact + b.exact, a.near + b.near, a.wrong + b.wrong, a.missing + b.missing, a.extra + b.extra)
  }

  function One(op: DiffOp): Counts {
    match op
    case EqOp(_, _, _) => Counts(0, 1, 0, 0, 0, 0)
    case SubOp(_, _, _, _, _, _, near, _) => if near then Counts(0, 0, 1, 0, 0, 0) else Counts(0, 0, 0, 1, 0, 0)
    case DelOp(_, _, _, _) => Counts(0, 0, 0, 0, 1, 0)
    case InsOp(_, _) => Counts(0, 0, 0, 0, 0, 1)
  }

  function CountFrom(ops: seq<DiffOp>, k: nat): Counts
    requires k <= |ops|
    decreases |ops| - k
  {
    if k == |ops| then Counts(0, 0, 0, 0, 0, 0) else Plus(One(ops[k]), CountFrom(ops, k + 1))
  }

  function CountAll(ops: seq<DiffOp>, total: nat): Counts { CountFrom(ops, 0).(total := total) }

  method CountOps(ops: seq<DiffOp>, total: nat) returns (c: Counts)
    ensures c == CountAll(ops, total)
  {
    var exact, near, wrong, missing, extra := 0, 0, 0, 0, 0;
    for k := 0 to |ops|
      invariant Plus(Counts(0, exact, near, wrong, missing, extra), CountFrom(ops, k)) == CountFrom(ops, 0)
    {
      match ops[k]
      case EqOp(_, _, _) => exact := exact + 1;
      case SubOp(_, _, _, _, _, _, isNear, _) => if isNear { near := near + 1; } else { wrong := wrong + 1; }
      case DelOp(_, _, _, _) => missing := missing + 1;
      case InsOp(_, _) => extra := extra + 1;
    }
    c := Counts(total, exact, near, wrong, missing, extra);
  }

  function Abs0(x: int): nat { if x >= 0 then x else 0 }

  /** `Math.max(0, Math.round(extraCost))` */
  function ExtraCost(m: Marking): nat { Abs0((m.extraCost + 0.5).Floor) }

  /** The score's numerator, doubled. */
  function Num2(c: Counts, m: Marking): nat {
    Abs0(2 * c.exact + (if m.near == Half then c.near else 0) - 2 * c.extra * ExtraCost(m))
  }

  function ScoreOf(c: Counts, num2: nat): real {
    if c.total == 0 then 0.0 else num2 as real / (2 * c.total) as real
  }

  function Diff(r: Rules, E: seq<DcToken>, T: seq<DcToken>): DiffResult {
    var ops := DiffOps(r, E, T);
    var c := CountAll(ops, |E|);
    DiffResult(ops, c, ScoreOf(c, Num2(c, r.marking)), Num2(c, r.marking))
  }

  /** Kept pairs one by one, and every stretch between two of them as a seam. */
  method PairAll(r: Rules, E: seq<DcToken>, T: seq<DcToken>, raw: seq<Op>) returns (ops: seq<DiffOp>)
    requires InRange(raw, E, T)
    ensures ops == DiffFrom(r, E, T, raw, 0)
  {
    ops := [];
    ghost var all := DiffFrom(r, E, T, raw, 0);
    var x: nat := 0;
    while x < |raw|
      invariant x <= |raw| && all == ops + DiffFrom(r, E, T, raw, x)
    {
      if raw[x].Both? {
        KeptDone(r, E, T, raw, x, all, ops);
        ops := ops + [Kept(E, T, raw, x)];
        x := x + 1;
      } else {
        ops, x := PairStretch(r, E, T, raw, x, ops, all);
      }
    }
  }

  /** One seam: everything up to the next kept pair. */
  method PairStretch(r: Rules, E: seq<DcToken>, T: seq<DcToken>, raw: seq<Op>, x: nat, ops: seq<DiffOp>, ghost all: seq<DiffOp>)
    returns (more: seq<DiffOp>, y: nat)
    requires x < |raw| && !raw[x].Both? && InRange(raw, E, T) && all == ops + DiffFrom(r, E, T, raw, x)
    ensures x < y <= |raw| && all == more + DiffFrom(r, E, T, raw, y)
  {
    var dels, inss;
    dels, inss, y := CollectSeam(E, T, raw, x);
    var seam := PairSeam(r, dels, inss);
    DiffUnfold(r, E, T, raw, x, y, dels, inss);
    SeamDone(all, ops, seam, DiffFrom(r, E, T, raw, x), DiffFrom(r, E, T, raw, y));
    more := ops + seam;
  }

  lemma KeptDone(r: Rules, E: seq<DcToken>, T: seq<DcToken>, raw: seq<Op>, x: nat, all: seq<DiffOp>, ops: seq<DiffOp>)
    requires x < |raw| && raw[x].Both? && InRange(raw, E, T) && all == ops + DiffFrom(r, E, T, raw, x)
    ensures all == (ops + [Kept(E, T, raw, x)]) + DiffFrom(r, E, T, raw, x + 1)
  {
    Reassociate(ops, Kept(E, T, raw, x), DiffFrom(r, E, T, raw, x + 1));
  }

  lemma DiffUnfold(r: Rules, E: seq<DcToken>, T: seq<DcToken>, raw: seq<Op>, x: nat, y: nat, dels: seq<DcToken>, inss: seq<DcToken>)
    requires InRange(raw, E, T) && x < |raw| && !raw[x].Both? && y == x + SeamLength(raw, x)
    requires InRange(raw[x..y], E, T) && SpelledA(E, raw[x..y]) == dels && SpelledB(T, raw[x..y]) == inss
    ensures DiffFrom(r, E, T, raw, x) == Seam(r, dels, 0, inss, 0) + DiffFrom(r, E, T, raw, y)
  {
    DiffNext(r, E, T, raw, x, y);
    BetweenIs(r, E, T, raw[x..y], dels, inss);
  }

  lemma DiffNext(r: Rules, E: seq<DcToken>, T: seq<DcToken>, raw: seq<Op>, x: nat, y: nat)
    requires InRange(raw, E, T) && x < |raw| && !raw[x].Both? && y == x + SeamLength(raw, x) && InRange(raw[x..y], E, T)
    ensures DiffFrom(r, E, T, raw, x) == SeamBetween(r, E, T, raw[x..y]) + DiffFrom(r, E, T, raw, y)
  {}

  lemma BetweenIs(r: Rules, E: seq<DcToken>, T: seq<DcToken>, stretch: seq<Op>, dels: seq<DcToken>, inss: seq<DcToken>)
    requires InRange(stretch, E, T) && SpelledA(E, stretch) == dels && SpelledB(T, stretch) == inss
    ensures SeamBetween(r, E, T, stretch) == Seam(r, dels, 0, inss, 0)
  {}

  lemma SeamDone(all: seq<DiffOp>, ops: seq<DiffOp>, seam: seq<DiffOp>, before: seq<DiffOp>, after: seq<DiffOp>)
    requires all == ops + before && before == seam + after
    ensures all == (ops + seam) + after
  {
    Assoc(ops, seam, after);
  }

  /** The diff with the loops of the source. */
  method ComputeDiff(r: Rules, E: seq<DcToken>, T: seq<DcToken>) returns (d: DiffResult)
    ensures d == Diff(r, E, T)
  {
    var raw, lcs := Align(SameKey(r.marking, r.pack, r.abc), E, T);
    RawInRange(r, E, T);
    var ops := PairAll(r, E, T, raw);
    var c := CountOps(ops, |E|);
    var num2 := Num2(c, r.marking);
    d := DiffResult(ops, c, ScoreOf(c, num2), num2);
  }

  /** Everything up to the next kept pair: the expected words on one side, the typed on the other. */
  method CollectSeam(E: seq<DcToken>, T: seq<DcToken>, raw: seq<Op>, x: nat)
    returns (dels: seq<DcToken>, inss: seq<DcToken>, y: nat)
    requires x < |raw| && !raw[x].Both? && InRange(raw, E, T)
    ensures x < y <= |raw| && y == x + SeamLength(raw, x)
    ensures dels == SpelledA(E, raw[x..y]) && inss == SpelledB(T, raw[x..y])
  {
    dels, inss, y := [], [], x;
    while y < |raw| && !raw[y].Both?
      invariant x <= y <= |raw| && y + SeamLength(raw, y) == x + SeamLength(raw, x)
      invariant dels == SpelledA(E, raw[x..y]) && inss == SpelledB(T, raw[x..y])
    {
      var op := raw[y];
      assert op in raw;
      assert raw[x..y + 1] == raw[x..y] + [op];
      SpelledSnoc(E, T, raw[x..y], op);
      if op.OnlyA? { dels := dels + [E[op.ai]]; } else { inss := inss + [T[op.bi]]; }
      y := y + 1;
    }
  }

  lemma {:induction false} SpelledSnoc(E: seq<DcToken>, T: seq<DcToken>, ops: seq<Op>, op: Op)
    requires InRange(ops, E, T) && InRange([op], E, T)
    ensures InRange(ops + [op], E, T)
    ensures SpelledA(E, ops + [op]) == SpelledA(E, ops) + (if op.OnlyB? then [] else [E[op.ai]])
    ensures SpelledB(T, ops + [op]) == SpelledB(T, ops) + (if op.OnlyA? then [] else [T[op.bi]])
  {
    assert op in [op];
    if ops == [] {
      assert ops + [op] == [op];
    } else {
      assert (ops + [op])[1..] == ops[1..] + [op];
      SpelledSnoc(E, T, ops[1..], op);
    }
  }

  /** Whether a check passes the pass mark, in whole numbers. */
  predicate Passes(d: DiffResult, threshold: int) {
    d.words.total > 0 && d.num2 * 100 >= threshold * 2 * d.words.total
  }
}
