/** The word diff loses nothing and invents nothing, and its score is what it says. */
module DiffAccounting {
  import opened Sequences
  import opened Ratios
  import opened Text
  import opened Tokens
  import opened Alignment
  import opened Classify
  import opened DictationDiff

  // ----- Accounting for the expected words -----

  /** What an operation says about the expected words it stands for, starting at `from`. */
  ghost predicate Truthful(r: Rules, op: DiffOp, E: seq<DcToken>, from: nat) {
    match op
    case EqOp(i, _, _) => i == from < |E|
    case SubOp(i, n, _, expected, p, cls, near, focus) =>
      && i == from && 1 <= n <= 3 && from + n <= |E|
      && expected == Join(Written(E[from..from + n])) && p == E[from + n - 1].p
      && (focus <==> exists k | from <= k < from + n :: k in r.focus)
      && (near ==> n == 1 && !focus && Nearable(cls) && r.marking.near != Strict)
      && (n > 1 ==> cls == Boundary)
    case DelOp(i, expected, p, focus) =>
      i == from < |E| && expected == E[from].w && p == E[from].p && (focus <==> from in r.focus)
    case InsOp(_, _) => true
  }

  function Width(op: DiffOp): nat {
    match op
    case EqOp(_, _, _) => 1
    case SubOp(_, n, _, _, _, _, _, _) => n
    case DelOp(_, _, _, _) => 1
    case InsOp(_, _) => 0
  }

  /** The operations stand for the expected words `[from, to)`, each exactly once and in order. */
  ghost predicate Tile(r: Rules, ops: seq<DiffOp>, E: seq<DcToken>, from: nat, to: nat)
    decreases |ops|
  {
    if ops == [] then from == to
    else Truthful(r, ops[0], E, from) && Tile(r, ops[1..], E, from + Width(ops[0]), to)
  }

  lemma {:induction false} TileConcat(r: Rules, a: seq<DiffOp>, b: seq<DiffOp>, E: seq<DcToken>, from: nat, mid: nat, to: nat)
    requires Tile(r, a, E, from, mid) && Tile(r, b, E, mid, to)
    ensures Tile(r, a + b, E, from, to)
  {
    if a == [] {
      assert a + b == b;
    } else {
      assert (a + b)[1..] == a[1..] + b;
      TileConcat(r, a[1..], b, E, from + Width(a[0]), mid, to);
    }
  }

  // ----- Accounting for the typed words -----

  /** The typed words an operation stands for. */
  function TypedBy(op: DiffOp): seq<string> {
    match op
    case EqOp(_, w, _) => [w]
    case SubOp(_, _, wrote, _, _, _, _, _) => Fields(wrote)
    case DelOp(_, _, _, _) => []
    case InsOp(wrote, _) => [wrote]
  }

  function Typed(ops: seq<DiffOp>): seq<string> {
    if ops == [] then [] else TypedBy(ops[0]) + Typed(ops[1..])
  }

  function EqCount(ops: seq<DiffOp>): nat {
    if ops == [] then 0 else (if ops[0].EqOp? then 1 else 0) + EqCount(ops[1..])
  }

  lemma TypedCons(op: DiffOp, rest: seq<DiffOp>)
    ensures Typed([op] + rest) == TypedBy(op) + Typed(rest)
    ensures EqCount([op] + rest) == (if op.EqOp? then 1 else 0) + EqCount(rest)
  {
    assert ([op] + rest)[1..] == rest;
  }

  lemma {:induction false} TypedConcat(a: seq<DiffOp>, b: seq<DiffOp>)
    ensures Typed(a + b) == Typed(a) + Typed(b)
    ensures EqCount(a + b) == EqCount(a) + EqCount(b)
    decreases |a|
  {
    if a == [] {
      assert a + b == b;
    } else {
      TypedConcat(a[1..], b);
      TypedConcatCons(a[0], a[1..], b);
      assert a == [a[0]] + a[1..];
    }
  }

  lemma TypedConcatCons(op: DiffOp, a: seq<DiffOp>, b: seq<DiffOp>)
    requires Typed(a + b) == Typed(a) + Typed(b) && EqCount(a + b) == EqCount(a) + EqCount(b)
    ensures Typed(([op] + a) + b) == Typed([op] + a) + Typed(b)
    ensures EqCount(([op] + a) + b) == EqCount([op] + a) + EqCount(b)
  {
    Assoc([op], a, b);
    TypedCons(op, a);
    TypedCons(op, a + b);
    Assoc(TypedBy(op), Typed(a), Typed(b));
  }

  // ----- One seam -----

  ghost predicate CleanWords(ts: seq<DcToken>) { forall k | 0 <= k < |ts| :: Clean(ts[k].w) }

  lemma SubstitutionTruthful(r: Rules, E: seq<DcToken>, from: nat, n: nat, wrote: seq<DcToken>)
    requires Numbered(E) && 1 <= n <= 3 && from + n <= |E| && wrote != [] && (n > 1 ==> |wrote| == 1)
    ensures Truthful(r, Substitution(r, E[from..from + n], wrote), E, from)
    ensures Width(Substitution(r, E[from..from + n], wrote)) == n
  {
    var covered := E[from..from + n];
    assert forall k | 0 <= k < n :: covered[k] == E[from + k] && covered[k].i == from + k;
    FocusCovered(r, covered, from);
    if n == 1 && |wrote| == 1 { assert Written(covered) == [covered[0].w]; }
  }

  lemma FocusCovered(r: Rules, covered: seq<DcToken>, from: nat)
    requires forall k | 0 <= k < |covered| :: covered[k].i == from + k
    ensures (exists k | 0 <= k < |covered| :: covered[k].i in r.focus) <==> exists k | from <= k < from + |covered| :: k in r.focus
  {
    if k :| 0 <= k < |covered| && covered[k].i in r.focus { assert from + k in r.focus; }
    if k :| from <= k < from + |covered| && k in r.focus { assert covered[k - from].i in r.focus; }
  }

  lemma SubstitutionTyped(r: Rules, covered: seq<DcToken>, wrote: seq<DcToken>)
    requires covered != [] && wrote != [] && CleanWords(wrote)
    ensures TypedBy(Substitution(r, covered, wrote)) == Written(wrote)
  {
    var ws := Written(wrote);
    assert AllClean(ws);
    if |covered| == 1 && |wrote| == 1 {
      FieldsOfClean(wrote[0].w);
      assert ws == [wrote[0].w];
    } else {
      JoinRoundTrip(ws);
    }
  }

  lemma SliceOfSlice(E: seq<DcToken>, base: nat, n: nat, p: nat, q: nat)
    requires base + n <= |E| && p <= q <= n
    ensures E[base..base + n][p..q] == E[base + p..base + q]
  {
    var s := E[base..base + n];
    forall k | 0 <= k < q - p ensures s[p..q][k] == E[base + p..base + q][k] {
      assert s[p..q][k] == s[p + k] == E[base + (p + k)];
    }
  }

  /** One step of a seam speaks the truth about the expected words it covers … */
  lemma StepTruthful(r: Rules, E: seq<DcToken>, base: nat, n: nat, p: nat, inss: seq<DcToken>, q: nat)
    requires Numbered(E) && base + n <= |E| && p <= n && q <= |inss| && (p < n || q < |inss|)
    ensures TruthStep(r, E, base, p, SeamStep(r, E[base..base + n], p, inss, q))
  {
    var dels := E[base..base + n];
    if p < n && q < |inss| {
      var (dn, gn) := Cover(dels, p, inss, q, r.abc);
      CoverTruthful(r, E, base, n, p, inss[q..q + gn], dn);
    } else if p < n {
      assert dels[p] == E[base + p];
    }
  }

  ghost predicate TruthStep(r: Rules, E: seq<DcToken>, base: nat, p: nat, s: (DiffOp, nat, nat)) {
    Truthful(r, s.0, E, base + p) && p + Width(s.0) == s.1
  }

  lemma CoverTruthful(r: Rules, E: seq<DcToken>, base: nat, n: nat, p: nat, wrote: seq<DcToken>, dn: nat)
    requires Numbered(E) && base + n <= |E| && p + dn <= n && 1 <= dn <= 3 && wrote != [] && (dn == 1 || |wrote| == 1)
    ensures var op := Substitution(r, E[base..base + n][p..p + dn], wrote);
            Truthful(r, op, E, base + p) && Width(op) == dn
  {
    SliceOfSlice(E, base, n, p, p + dn);
    SubstitutionTruthful(r, E, base + p, dn, wrote);
  }

  /** … and stands for the typed words it consumes. */
  lemma StepTyped(r: Rules, dels: seq<DcToken>, p: nat, inss: seq<DcToken>, q: nat)
    requires Open(dels, p, inss, q) && CleanWords(inss)
    ensures TypedStep(inss, q, SeamStep(r, dels, p, inss, q))
  {
    if p < |dels| && q < |inss| {
      var (dn, gn) := Cover(dels, p, inss, q, r.abc);
      CleanSlice(inss, q, q + gn);
      SubstitutionTyped(r, dels[p..p + dn], inss[q..q + gn]);
    } else if p == |dels| {
      assert Written(inss[q..q + 1]) == [inss[q].w];
    }
  }

  ghost predicate TypedStep(inss: seq<DcToken>, q: nat, s: (DiffOp, nat, nat)) {
    q <= s.2 <= |inss| && TypedBy(s.0) == Written(inss[q..s.2]) && !s.0.EqOp?
  }

  lemma CleanSlice(ts: seq<DcToken>, a: nat, b: nat)
    requires CleanWords(ts) && a <= b <= |ts|
    ensures CleanWords(ts[a..b])
  {
    forall k | 0 <= k < b - a ensures Clean(ts[a..b][k].w) { assert ts[a..b][k] == ts[a + k]; }
  }

  /** Steps that speak the truth about expected words tile them. */
  lemma {:induction false} SeamByTiles(step: Stepper, r: Rules, E: seq<DcToken>, base: nat, dels: seq<DcToken>, p: nat, inss: seq<DcToken>, q: nat)
    requires Advances(step) && p <= |dels| && q <= |inss|
    requires forall p: nat, q: nat | Open(dels, p, inss, q) :: TruthStep(r, E, base, p, step(dels, p, inss, q))
    ensures Tile(r, SeamBy(step, dels, p, inss, q), E, base + p, base + |dels|)
    decreases |dels| - p + |inss| - q
  {
    if Open(dels, p, inss, q) {
      var s := step(dels, p, inss, q);
      assert StepFits(dels, p, inss, q, s) && TruthStep(r, E, base, p, s);
      SeamByTiles(step, r, E, base, dels, s.1, inss, s.2);
      TileCons(r, s.0, SeamBy(step, dels, s.1, inss, s.2), E, base + p, base + |dels|);
    }
  }

  lemma SeamTiles(r: Rules, E: seq<DcToken>, base: nat, n: nat, inss: seq<DcToken>)
    requires Numbered(E) && base + n <= |E|
    ensures Tile(r, Seam(r, E[base..base + n], 0, inss, 0), E, base, base + n)
  {
    var dels := E[base..base + n];
    StepsTruthful(r, E, base, n, inss);
    StepAdvances(r);
    SeamIsBy(r, dels, 0, inss, 0);
    SeamByTiles(StepOf(r), r, E, base, dels, 0, inss, 0);
  }

  lemma StepsTruthful(r: Rules, E: seq<DcToken>, base: nat, n: nat, inss: seq<DcToken>)
    requires Numbered(E) && base + n <= |E|
    ensures var dels := E[base..base + n];
            forall p: nat, q: nat | Open(dels, p, inss, q) :: TruthStep(r, E, base, p, StepOf(r)(dels, p, inss, q))
  {
    var dels := E[base..base + n];
    forall p: nat, q: nat | Open(dels, p, inss, q) ensures TruthStep(r, E, base, p, StepOf(r)(dels, p, inss, q)) {
      StepTruthful(r, E, base, n, p, inss, q);
    }
  }

  lemma TileCons(r: Rules, op: DiffOp, rest: seq<DiffOp>, E: seq<DcToken>, from: nat, to: nat)
    requires Truthful(r, op, E, from) && Tile(r, rest, E, from + Width(op), to)
    ensures Tile(r, [op] + rest, E, from, to)
  {
    assert ([op] + rest)[1..] == rest;
  }

  lemma WrittenSplit(ts: seq<DcToken>, q: nat, q': nat)
    requires q <= q' <= |ts|
    ensures Written(ts[q..]) == Written(ts[q..q']) + Written(ts[q'..])
  {}

  lemma {:induction false} SeamByTyped(step: Stepper, dels: seq<DcToken>, p: nat, inss: seq<DcToken>, q: nat)
    requires Advances(step) && p <= |dels| && q <= |inss|
    requires forall p: nat, q: nat | Open(dels, p, inss, q) :: TypedStep(inss, q, step(dels, p, inss, q))
    ensures Typed(SeamBy(step, dels, p, inss, q)) == Written(inss[q..])
    ensures EqCount(SeamBy(step, dels, p, inss, q)) == 0
    decreases |dels| - p + |inss| - q
  {
    if Open(dels, p, inss, q) {
      var s := step(dels, p, inss, q);
      assert StepFits(dels, p, inss, q, s) && TypedStep(inss, q, s);
      SeamByTyped(step, dels, s.1, inss, s.2);
      TypedCons(s.0, SeamBy(step, dels, s.1, inss, s.2));
      WrittenSplit(inss, q, s.2);
    }
  }

  lemma SeamTyped(r: Rules, dels: seq<DcToken>, inss: seq<DcToken>)
    requires CleanWords(inss)
    ensures Typed(Seam(r, dels, 0, inss, 0)) == Written(inss) && EqCount(Seam(r, dels, 0, inss, 0)) == 0
  {
    forall p: nat, q: nat | Open(dels, p, inss, q) ensures TypedStep(inss, q, StepOf(r)(dels, p, inss, q)) {
      StepTyped(r, dels, p, inss, q);
    }
    StepAdvances(r);
    SeamIsBy(r, dels, 0, inss, 0);
    SeamByTyped(StepOf(r), dels, 0, inss, 0);
    assert inss[0..] == inss;
  }

  // ----- The whole diff -----

  /** A stretch without a kept pair walks over consecutive words of both sides. */
  lemma {:induction false} SeamCursor(rel: (DcToken, DcToken) -> bool, E: seq<DcToken>, T: seq<DcToken>,
                                      raw: seq<Op>, x: nat, n: nat, i: nat, j: nat) returns (i': nat, j': nat)
    requires InRange(raw, E, T) && x + n <= |raw| && (forall t | x <= t < x + n :: !raw[t].Both?)
    requires Script(rel, E, T, raw[x..], i, j)
    ensures i <= i' <= |E| && j <= j' <= |T|
    ensures SpelledA(E, raw[x..x + n]) == E[i..i'] && SpelledB(T, raw[x..x + n]) == T[j..j']
    ensures Script(rel, E, T, raw[x + n..], i', j')
    ensures Pairs(raw[x..]) == Pairs(raw[x + n..])
    decreases n
  {
    ScriptBounds(rel, E, T, raw[x..], i, j);
    if n == 0 {
      i', j' := i, j;
      assert raw[x..x] == [];
    } else {
      var op := raw[x];
      assert raw[x..][0] == op && raw[x..][1..] == raw[x + 1..];
      i', j' := SeamCursor(rel, E, T, raw, x + 1, n - 1, NextA(op), NextB(op));
      assert raw[x..x + n] == [op] + raw[x + 1..x + n];
      CursorStep(E, T, op, raw[x + 1..x + n], i, i', j, j');
    }
  }

  lemma SpelledCons(E: seq<DcToken>, T: seq<DcToken>, op: Op, rest: seq<Op>)
    requires InRange([op] + rest, E, T) && InRange(rest, E, T)
    ensures SpelledA(E, [op] + rest) == (if op.OnlyB? then [] else [E[op.ai]]) + SpelledA(E, rest)
    ensures SpelledB(T, [op] + rest) == (if op.OnlyA? then [] else [T[op.bi]]) + SpelledB(T, rest)
  {
    assert ([op] + rest)[1..] == rest && ([op] + rest)[0] == op;
  }

  lemma HeadOfSlice(ts: seq<DcToken>, i: nat, i': nat)
    requires i < i' <= |ts|
    ensures ts[i..i'] == [ts[i]] + ts[i + 1..i']
  {}

  lemma CursorStep(E: seq<DcToken>, T: seq<DcToken>, op: Op, rest: seq<Op>, i: nat, i': nat, j: nat, j': nat)
    requires !op.Both? && InRange([op] + rest, E, T) && InRange(rest, E, T)
    requires op.ai == i && op.bi == j && NextA(op) <= i' <= |E| && NextB(op) <= j' <= |T|
    requires SpelledA(E, rest) == E[NextA(op)..i'] && SpelledB(T, rest) == T[NextB(op)..j']
    ensures SpelledA(E, [op] + rest) == E[i..i'] && SpelledB(T, [op] + rest) == T[j..j']
  {
    SpelledCons(E, T, op, rest);
    if op.OnlyA? { HeadOfSlice(E, i, i'); } else { HeadOfSlice(T, j, j'); }
  }

  /** What is proved of the operations from step `x` of the walk on. */
  ghost predicate Accounts(r: Rules, ops: seq<DiffOp>, E: seq<DcToken>, T: seq<DcToken>, i: nat, j: nat, kept: nat) {
    && i <= |E| && j <= |T|
    && Tile(r, ops, E, i, |E|)
    && Typed(ops) == Written(T[j..])
    && EqCount(ops) == kept
  }

  lemma {:induction false} DiffFromAccounts(r: Rules, E: seq<DcToken>, T: seq<DcToken>, raw: seq<Op>, x: nat, i: nat, j: nat)
    requires Numbered(E) && CleanWords(T) && InRange(raw, E, T) && x <= |raw|
    requires Script(SameKey(r.marking, r.pack, r.abc), E, T, raw[x..], i, j)
    ensures Accounts(r, DiffFrom(r, E, T, raw, x), E, T, i, j, |Pairs(raw[x..])|)
    decreases |raw| - x
  {
    var rel := SameKey(r.marking, r.pack, r.abc);
    if x == |raw| {
      assert raw[x..] == [] && T[j..] == [];
    } else if raw[x].Both? {
      KeptCursor(rel, E, T, raw, x, i, j);
      DiffFromAccounts(r, E, T, raw, x + 1, i + 1, j + 1);
      KeptAccounts(r, E, T, Kept(E, T, raw, x), DiffFrom(r, E, T, raw, x + 1), i, j, |Pairs(raw[x + 1..])|);
    } else {
      var y, i', j' := NextKept(rel, E, T, raw, x, i, j);
      DiffFromAccounts(r, E, T, raw, y, i', j');
      SeamBranch(r, E, T, raw, x, y, i, i', j, j', |Pairs(raw[x..])|);
    }
  }

  lemma NextKept(rel: (DcToken, DcToken) -> bool, E: seq<DcToken>, T: seq<DcToken>, raw: seq<Op>, x: nat, i: nat, j: nat)
    returns (y: nat, i': nat, j': nat)
    requires InRange(raw, E, T) && x < |raw| && !raw[x].Both? && Script(rel, E, T, raw[x..], i, j)
    ensures x < y == x + SeamLength(raw, x) <= |raw| && i <= i' <= |E| && j <= j' <= |T|
    ensures SpelledA(E, raw[x..y]) == E[i..i'] && SpelledB(T, raw[x..y]) == T[j..j']
    ensures Script(rel, E, T, raw[y..], i', j') && Pairs(raw[x..]) == Pairs(raw[y..])
  {
    var n := SeamLength(raw, x);
    y := x + n;
    i', j' := SeamCursor(rel, E, T, raw, x, n, i, j);
  }

  lemma SeamBranch(r: Rules, E: seq<DcToken>, T: seq<DcToken>, raw: seq<Op>, x: nat, y: nat,
                   i: nat, i': nat, j: nat, j': nat, kept: nat)
    requires Numbered(E) && CleanWords(T) && InRange(raw, E, T) && x < |raw| && !raw[x].Both?
    requires y == x + SeamLength(raw, x) && i <= i' <= |E| && j <= j' <= |T|
    requires SpelledA(E, raw[x..y]) == E[i..i'] && SpelledB(T, raw[x..y]) == T[j..j']
    requires Accounts(r, DiffFrom(r, E, T, raw, y), E, T, i', j', kept)
    ensures Accounts(r, DiffFrom(r, E, T, raw, x), E, T, i, j, kept)
  {
    DiffUnfold(r, E, T, raw, x, y, E[i..i'], T[j..j']);
    SeamAccounts(r, E, T, DiffFrom(r, E, T, raw, y), i, i', j, j', kept);
  }

  lemma KeptCursor(rel: (DcToken, DcToken) -> bool, E: seq<DcToken>, T: seq<DcToken>, raw: seq<Op>, x: nat, i: nat, j: nat)
    requires InRange(raw, E, T) && x < |raw| && raw[x].Both? && Script(rel, E, T, raw[x..], i, j)
    ensures i == raw[x].ai < |E| && j == raw[x].bi < |T|
    ensures Script(rel, E, T, raw[x + 1..], i + 1, j + 1)
    ensures |Pairs(raw[x..])| == |Pairs(raw[x + 1..])| + 1
  {
    assert raw[x..][0] == raw[x] && raw[x..][1..] == raw[x + 1..];
  }

  lemma KeptAccounts(r: Rules, E: seq<DcToken>, T: seq<DcToken>, op: DiffOp, rest: seq<DiffOp>, i: nat, j: nat, kept: nat)
    requires i < |E| && j < |T| && op == EqOp(i, T[j].w, T[j].p) && Accounts(r, rest, E, T, i + 1, j + 1, kept)
    ensures Accounts(r, [op] + rest, E, T, i, j, kept + 1)
  {
    TileCons(r, op, rest, E, i, |E|);
    TypedCons(op, rest);
    WrittenSplit(T, j, j + 1);
    assert Written(T[j..j + 1]) == [T[j].w];
  }

  lemma SeamAccounts(r: Rules, E: seq<DcToken>, T: seq<DcToken>, rest: seq<DiffOp>, i: nat, i': nat, j: nat, j': nat, kept: nat)
    requires Numbered(E) && CleanWords(T) && i <= i' <= |E| && j <= j' <= |T|
    requires Accounts(r, rest, E, T, i', j', kept)
    ensures Accounts(r, Seam(r, E[i..i'], 0, T[j..j'], 0) + rest, E, T, i, j, kept)
  {
    var seam := Seam(r, E[i..i'], 0, T[j..j'], 0);
    CleanSlice(T, j, j');
    SeamTiles(r, E, i, i' - i, T[j..j']);
    SeamTyped(r, E[i..i'], T[j..j']);
    SeamBefore(r, E, T, seam, rest, i, i', j, j', kept);
  }

  lemma SeamBefore(r: Rules, E: seq<DcToken>, T: seq<DcToken>, seam: seq<DiffOp>, rest: seq<DiffOp>, i: nat, i': nat, j: nat, j': nat, kept: nat)
    requires i <= i' <= |E| && j <= j' <= |T| && Accounts(r, rest, E, T, i', j', kept)
    requires Tile(r, seam, E, i, i') && Typed(seam) == Written(T[j..j']) && EqCount(seam) == 0
    ensures Accounts(r, seam + rest, E, T, i, j, kept)
  {
    WrittenSplit(T, j, j');
    TileConcat(r, seam, rest, E, i, i', |E|);
    TypedConcat(seam, rest);
  }

  /** Every expected word is accounted for exactly once, in order, and so is every typed word;
      the words reported exact are as many as any order-preserving matching of equal keys has. */
  lemma DiffLosesNothing(r: Rules, E: seq<DcToken>, T: seq<DcToken>)
    requires Numbered(E) && CleanWords(T)
    ensures Tile(r, DiffOps(r, E, T), E, 0, |E|)
    ensures Typed(DiffOps(r, E, T)) == Written(T)
    ensures EqCount(DiffOps(r, E, T)) == Lcs(SameKey(r.marking, r.pack, r.abc), E, T, 0, 0)
    ensures forall m | Matching(SameKey(r.marking, r.pack, r.abc), E, T, 0, 0, m) :: |m| <= EqCount(DiffOps(r, E, T))
  {
    var rel, raw := SameKey(r.marking, r.pack, r.abc), RawOf(r, E, T);
    WalkIsScript(rel, E, T, 0, 0);
    RawInRange(r, E, T);
    assert raw[0..] == raw && T[0..] == T;
    DiffFromAccounts(r, E, T, raw, 0, 0, 0);
    forall m | Matching(rel, E, T, 0, 0, m) ensures |m| <= EqCount(DiffOps(r, E, T)) {
      LcsIsUpperBound(rel, E, T, 0, 0, m);
    }
  }

  // ----- Word boundaries -----

  /** The letters of some words, lower-cased and run together. */
  function Letters(abc: Alphabet, ws: seq<string>): string {
    if ws == [] then "" else abc.lower(ws[0]) + Letters(abc, ws[1..])
  }

  /** A boundary substitution: the words typed and the words expected run together to the same
      letters, and one side is a single word. */
  ghost predicate SameLetters(abc: Alphabet, op: DiffOp) {
    op.SubOp? && op.cls == Boundary ==>
      && Letters(abc, Fields(op.wrote)) == Letters(abc, Fields(op.expected))
      && |Fields(op.expected)| == op.n && (op.n == 1 || |Fields(op.wrote)| == 1)
  }

  lemma {:induction false} GluedIsLetters(ts: seq<DcToken>, abc: Alphabet)
    ensures Glued(ts, abc) == Letters(abc, Written(ts))
  {
    if ts != [] {
      GluedIsLetters(ts[1..], abc);
      assert Written(ts)[1..] == Written(ts[1..]);
    }
  }

  lemma WrittenClean(ts: seq<DcToken>)
    requires CleanWords(ts)
    ensures AllClean(Written(ts)) && Fields(Join(Written(ts))) == Written(ts)
  {
    forall w | w in Written(ts) ensures Clean(w) { var k :| 0 <= k < |ts| && Written(ts)[k] == w; }
    JoinRoundTrip(Written(ts));
  }

  lemma SubstitutionLetters(r: Rules, covered: seq<DcToken>, wrote: seq<DcToken>)
    requires CleanWords(covered) && CleanWords(wrote) && covered != [] && wrote != []
    requires |covered| == |wrote| == 1 || (Glued(covered, r.abc) == Glued(wrote, r.abc) && (|covered| == 1 || |wrote| == 1))
    ensures SameLetters(r.abc, Substitution(r, covered, wrote))
  {
    WrittenClean(covered);
    WrittenClean(wrote);
    GluedIsLetters(covered, r.abc);
    GluedIsLetters(wrote, r.abc);
  }

  lemma CoverGlues(dels: seq<DcToken>, p: nat, inss: seq<DcToken>, q: nat, abc: Alphabet)
    requires p < |dels| && q < |inss|
    ensures var (dn, gn) := Cover(dels, p, inss, q, abc);
            dn == gn == 1
            || (Glued(dels[p..p + dn], abc) == Glued(inss[q..q + gn], abc) && (dn == 1 || gn == 1))
  {
    assert inss[q..q + 1] == [inss[q]] && dels[p..p + 1] == [dels[p]];
  }

  lemma StepLetters(r: Rules, dels: seq<DcToken>, p: nat, inss: seq<DcToken>, q: nat)
    requires Open(dels, p, inss, q) && CleanWords(dels) && CleanWords(inss)
    ensures SameLetters(r.abc, SeamStep(r, dels, p, inss, q).0)
  {
    if p < |dels| && q < |inss| {
      var (dn, gn) := Cover(dels, p, inss, q, r.abc);
      CoverGlues(dels, p, inss, q, r.abc);
      CleanSlice(dels, p, p + dn);
      CleanSlice(inss, q, q + gn);
      SubstitutionLetters(r, dels[p..p + dn], inss[q..q + gn]);
    }
  }

  lemma {:induction false} SeamLetters(r: Rules, dels: seq<DcToken>, p: nat, inss: seq<DcToken>, q: nat)
    requires p <= |dels| && q <= |inss| && CleanWords(dels) && CleanWords(inss)
    ensures forall op | op in Seam(r, dels, p, inss, q) :: SameLetters(r.abc, op)
    decreases |dels| - p + |inss| - q
  {
    if Open(dels, p, inss, q) {
      var s := SeamStep(r, dels, p, inss, q);
      StepLetters(r, dels, p, inss, q);
      SeamLetters(r, dels, s.1, inss, s.2);
    }
  }

  lemma {:induction false} SpelledClean(E: seq<DcToken>, T: seq<DcToken>, ops: seq<Op>)
    requires InRange(ops, E, T) && CleanWords(E) && CleanWords(T)
    ensures CleanWords(SpelledA(E, ops)) && CleanWords(SpelledB(T, ops))
    decreases |ops|
  {
    if ops != [] {
      var init, last := ops[..|ops| - 1], ops[|ops| - 1];
      assert ops == init + [last];
      assert InRange(init, E, T) && InRange([last], E, T);
      SpelledClean(E, T, init);
      SpelledSnoc(E, T, init, last);
    }
  }

  lemma {:induction false} DiffLetters(r: Rules, E: seq<DcToken>, T: seq<DcToken>, raw: seq<Op>, x: nat)
    requires x <= |raw| && InRange(raw, E, T) && CleanWords(E) && CleanWords(T)
    ensures forall op | op in DiffFrom(r, E, T, raw, x) :: SameLetters(r.abc, op)
    decreases |raw| - x
  {
    if x < |raw| {
      if raw[x].Both? {
        DiffLetters(r, E, T, raw, x + 1);
      } else {
        var y := x + SeamLength(raw, x);
        DiffLetters(r, E, T, raw, y);
        SpelledClean(E, T, raw[x..y]);
        SeamLetters(r, SpelledA(E, raw[x..y]), 0, SpelledB(T, raw[x..y]), 0);
      }
    }
  }

  /** What the diff calls a boundary error is one: the words on either side have the same letters. */
  lemma BoundariesAre(r: Rules, E: seq<DcToken>, T: seq<DcToken>)
    requires CleanWords(E) && CleanWords(T)
    ensures forall op | op in DiffOps(r, E, T) :: SameLetters(r.abc, op)
  {
    RawInRange(r, E, T);
    DiffLetters(r, E, T, RawOf(r, E, T), 0);
  }

  // ----- Counts -----

  function SubWidth(ops: seq<DiffOp>): nat {
    if ops == [] then 0 else (if ops[0].SubOp? then ops[0].n else 0) + SubWidth(ops[1..])
  }

  /** How many operations are of a kind. */
  function Number(ops: seq<DiffOp>, kind: DiffOp -> bool): nat {
    if ops == [] then 0 else (if kind(ops[0]) then 1 else 0) + Number(ops[1..], kind)
  }

  function IsSub(): DiffOp -> bool { (op: DiffOp) => op.SubOp? }
  function IsNear(): DiffOp -> bool { (op: DiffOp) => op.SubOp? && op.near }
  function IsDel(): DiffOp -> bool { (op: DiffOp) => op.DelOp? }
  function IsIns(): DiffOp -> bool { (op: DiffOp) => op.InsOp? }

  lemma {:induction false} CountsTile(r: Rules, ops: seq<DiffOp>, E: seq<DcToken>, k: nat, from: nat, to: nat)
    requires k <= |ops| && Tile(r, ops[k..], E, from, to)
    ensures from <= to && Counted(ops[k..], CountFrom(ops, k), to - from)
    decreases |ops| - k
  {
    if k < |ops| {
      assert ops[k..] == [ops[k]] + ops[k + 1..];
      assert ops[k..][1..] == ops[k + 1..];
      CountsTile(r, ops, E, k + 1, from + Width(ops[k]), to);
      CountsCons(ops[k], ops[k + 1..], CountFrom(ops, k + 1), to - from - Width(ops[k]));
    }
  }

  /** What the counts of some operations, standing for `n` expected words, say about them. */
  ghost predicate Counted(ops: seq<DiffOp>, c: Counts, n: int) {
    && c.exact == EqCount(ops) && c.exact + SubWidth(ops) + c.missing == n
    && c.near == Number(ops, IsNear()) && c.near + c.wrong == Number(ops, IsSub()) <= SubWidth(ops)
    && c.missing == Number(ops, IsDel()) && c.extra == Number(ops, IsIns())
    && c.exact + c.near + c.wrong + c.missing + c.extra == |ops|
    && |Typed(ops)| >= c.exact + c.extra && c.total == 0
  }

  lemma CountsCons(op: DiffOp, rest: seq<DiffOp>, c: Counts, n: int)
    requires Counted(rest, c, n) && (op.SubOp? ==> op.n >= 1)
    ensures Counted([op] + rest, Plus(One(op), c), n + Width(op))
  {
    assert ([op] + rest)[1..] == rest;
    TypedCons(op, rest);
  }

  /** Every expected word is counted once: exact, in a substitution, or missing; every operation is
      counted once, each kind by itself. */
  lemma CountsAddUp(r: Rules, E: seq<DcToken>, T: seq<DcToken>)
    requires Numbered(E) && CleanWords(T)
    ensures var d := Diff(r, E, T);
            && d.words.total == |E|
            && d.words.exact == Lcs(SameKey(r.marking, r.pack, r.abc), E, T, 0, 0)
            && d.words.exact + SubWidth(d.ops) + d.words.missing == |E|
            && d.words.near == Number(d.ops, IsNear())
            && d.words.near + d.words.wrong == Number(d.ops, IsSub()) <= SubWidth(d.ops)
            && d.words.missing == Number(d.ops, IsDel()) && d.words.extra == Number(d.ops, IsIns())
            && d.words.exact + d.words.near + d.words.wrong + d.words.missing + d.words.extra == |d.ops|
            && d.words.exact + d.words.extra <= |T|
  {
    var ops := DiffOps(r, E, T);
    DiffLosesNothing(r, E, T);
    assert ops[0..] == ops;
    CountsTile(r, ops, E, 0, 0, |E|);
  }

  /** The doubled numerator lies between nothing and everything; full marks mean that every
      expected word was written exactly and no extra word cost anything. */
  lemma ScoreRange(r: Rules, E: seq<DcToken>, T: seq<DcToken>)
    requires Numbered(E) && CleanWords(T)
    ensures var d := Diff(r, E, T);
            && d.num2 <= 2 * d.words.total
            && 0.0 <= d.score <= 1.0
            && (d.num2 == 2 * d.words.total <==>
                |E| == 0 || (d.words.exact == |E| && d.words.extra * ExtraCost(r.marking) == 0))
  {
    var d := Diff(r, E, T);
    CountsAddUp(r, E, T);
    Num2Range(d.words, r.marking, SubWidth(d.ops));
    if |E| > 0 { UnitRatio(d.num2, 2 * |E|); }
  }

  /** What the words earn: those written exactly, half of those nearly right where that earns half,
      less the price of every word too many. */
  function Earned(c: Counts, m: Marking, price: real): real {
    c.exact as real + (if m.near == Half then 0.5 * c.near as real else 0.0) - price * c.extra as real
  }

  /** The score is what the words earn over the words expected, and never below zero.  The price of a
      word too many is the author's, rounded to a whole number of words, and never negative. */
  lemma ScoreIs(r: Rules, E: seq<DcToken>, T: seq<DcToken>) returns (price: real)
    ensures var d := Diff(r, E, T);
            d.score == if |E| == 0 || Earned(d.words, r.marking, price) <= 0.0 then 0.0 else Earned(d.words, r.marking, price) / |E| as real
    ensures r.marking.extraCost < 0.0 ==> price == 0.0
    ensures r.marking.extraCost >= 0.0 ==> price - 0.5 <= r.marking.extraCost < price + 0.5 && price == price.Floor as real
  {
    price := ExtraCost(r.marking) as real;
    ScoreEarned(DiffCounts(r, E, T), r.marking);
  }

  function DiffCounts(r: Rules, E: seq<DcToken>, T: seq<DcToken>): (c: Counts)
    ensures c.total == |E| && c == Diff(r, E, T).words && Diff(r, E, T).score == ScoreOf(c, Num2(c, r.marking))
  {
    CountAll(DiffOps(r, E, T), |E|)
  }

  lemma ScoreEarned(c: Counts, m: Marking)
    ensures var earned := Earned(c, m, ExtraCost(m) as real);
            ScoreOf(c, Num2(c, m)) == if c.total == 0 || earned <= 0.0 then 0.0 else earned / c.total as real
  {
    DoubledScore(c.exact, if m.near == Half then c.near else 0, c.extra, ExtraCost(m), c.total);
  }

  lemma DoubledScore(exact: nat, near: nat, extra: nat, price: nat, total: nat)
    ensures var num2 := Abs0(2 * exact + near - 2 * extra * price);
            var earned := exact as real + 0.5 * near as real - price as real * extra as real;
            (if total == 0 then 0.0 else num2 as real / (2 * total) as real)
            == (if total == 0 || earned <= 0.0 then 0.0 else earned / total as real)
  {
    var cost := extra * price;
    assert cost as real == price as real * extra as real;
    assert 2 * extra * price == 2 * cost;
    if total > 0 && 2 * exact + near > 2 * cost {
      var earned := exact as real + 0.5 * near as real - cost as real;
      HalvesCancel(earned, total as real);
      assert (2 * exact + near - 2 * cost) as real == 2.0 * earned;
    }
  }

  lemma Num2Range(c: Counts, m: Marking, subs: nat)
    requires c.exact + subs + c.missing == c.total && c.near + c.wrong <= subs
    ensures Num2(c, m) <= 2 * c.total
    ensures Num2(c, m) == 2 * c.total <==> c.total == 0 || (c.exact == c.total && c.extra * ExtraCost(m) == 0)
  {
    var loss := c.extra * ExtraCost(m);
    assert loss >= 0;
    assert 2 * c.extra * ExtraCost(m) == 2 * loss;
  }

  /** The whole-number test passes exactly when the score reaches the pass mark. */
  lemma PassesIsScore(r: Rules, E: seq<DcToken>, T: seq<DcToken>, threshold: int)
    ensures var d := Diff(r, E, T);
            Passes(d, threshold) <==> |E| > 0 && d.score * 100.0 >= threshold as real
  {
    PassesByScore(Diff(r, E, T), threshold);
  }

  lemma PassesByScore(d: DiffResult, threshold: int)
    requires d.score == ScoreOf(d.words, d.num2)
    ensures Passes(d, threshold) <==> d.words.total > 0 && d.score * 100.0 >= threshold as real
  {
    if d.words.total > 0 {
      assert threshold * 2 * d.words.total == threshold * (2 * d.words.total);
      RatioTest(d.num2, 2 * d.words.total, threshold);
    }
  }

  // ----- Looser marking -----

  ghost predicate WordlyTokens(abc: Alphabet, ts: seq<DcToken>) {
    forall t | t in ts :: Wordly(abc, t.w)
  }

  /** Every pair of words that compares equal under `m` still does under `loose`. */
  ghost predicate Refines(m: Marking, loose: Marking, pack: Pack, abc: Alphabet) {
    forall e: DcToken, g: DcToken | Wordly(abc, e.w) && Wordly(abc, g.w) && SameKey(m, pack, abc)(e, g) :: SameKey(loose, pack, abc)(e, g)
  }

  /** On no two sentences does `loose` find fewer words exact. */
  ghost predicate NeverLoses(r: Rules, loose: Marking) {
    forall E, T | Numbered(E) && WordlyTokens(r.abc, E) && WordlyTokens(r.abc, T) ::
      Diff(r, E, T).words.exact <= Diff(r.(marking := loose), E, T).words.exact
  }

  lemma RefinesLoses(r: Rules, loose: Marking, E: seq<DcToken>, T: seq<DcToken>)
    requires Numbered(E) && WordlyTokens(r.abc, E) && WordlyTokens(r.abc, T)
    requires Refines(r.marking, loose, r.pack, r.abc)
    ensures Diff(r, E, T).words.exact <= Diff(r.(marking := loose), E, T).words.exact
  {
    assert CleanWords(T) by { forall k | 0 <= k < |T| ensures Clean(T[k].w) { assert T[k] in T; } }
    CountsAddUp(r, E, T);
    CountsAddUp(r.(marking := loose), E, T);
    LcsMonotone(SameKey(r.marking, r.pack, r.abc), SameKey(loose, r.pack, r.abc), E, T);
  }

  /** One marking never finds fewer words exact than another, on any two sentences, exactly when
      every two words that compare equal under the other compare equal under it. */
  lemma LooserFindsMoreIff(r: Rules, loose: Marking)
    ensures NeverLoses(r, loose) <==> Refines(r.marking, loose, r.pack, r.abc)
  {
    if Refines(r.marking, loose, r.pack, r.abc) {
      forall E, T | Numbered(E) && WordlyTokens(r.abc, E) && WordlyTokens(r.abc, T)
        ensures Diff(r, E, T).words.exact <= Diff(r.(marking := loose), E, T).words.exact
      {
        RefinesLoses(r, loose, E, T);
      }
    }
    if NeverLoses(r, loose) {
      forall e: DcToken, g: DcToken | Wordly(r.abc, e.w) && Wordly(r.abc, g.w) && SameKey(r.marking, r.pack, r.abc)(e, g)
        ensures SameKey(loose, r.pack, r.abc)(e, g)
      {
        OnePairRefines(r, loose, e, g);
      }
    }
  }

  lemma OnePairRefines(r: Rules, loose: Marking, e: DcToken, g: DcToken)
    requires NeverLoses(r, loose) && Wordly(r.abc, e.w) && Wordly(r.abc, g.w) && SameKey(r.marking, r.pack, r.abc)(e, g)
    ensures SameKey(loose, r.pack, r.abc)(e, g)
  {
    var first := e.(i := 0);
    assert Numbered([first]) && WordlyTokens(r.abc, [first]) && WordlyTokens(r.abc, [g]);
    OneWordExact(r, first, g);
    OneWordExact(r.(marking := loose), first, g);
  }

  /** Switching punctuation off never lowers the number of words found exact, whatever the pack
      accepts; nor does switching capitals off, for a pack that accepts no spellings. */
  lemma LooserFindsMore(r: Rules, loose: Marking, E: seq<DcToken>, T: seq<DcToken>)
    requires Numbered(E) && WordlyTokens(r.abc, E) && WordlyTokens(r.abc, T)
    requires Looser(loose, r.marking) && LettersPlain(r.pack)
    requires loose.caseSensitive == r.marking.caseSensitive || r.pack.accepted == []
    ensures Diff(r, E, T).words.exact <= Diff(r.(marking := loose), E, T).words.exact
  {
    forall e: DcToken, g: DcToken | Wordly(r.abc, e.w) && Wordly(r.abc, g.w) && SameKey(r.marking, r.pack, r.abc)(e, g)
      ensures SameKey(loose, r.pack, r.abc)(e, g)
    {
      KeyRefines(r.marking, loose, r.pack, r.abc, e, g);
    }
    RefinesLoses(r, loose, E, T);
  }

  lemma OneWordExact(r: Rules, e: DcToken, g: DcToken)
    requires e.i == 0 && Clean(g.w)
    ensures Diff(r, [e], [g]).words.exact == if SameKey(r.marking, r.pack, r.abc)(e, g) then 1 else 0
  {
    CountsAddUp(r, [e], [g]);
  }

  function LowerA(w: string): string { if w == "Aå" then "aå" else if w == "Aaa" then "aaa" else w }

  const ACCEPT_AA := Pack(map[], [("å", ["aa"])])

  /** With accepted spellings the promise fails: `aa` accepted as `å` makes `Aaa` equal to `Aå`
      while capitals count, but not once both are lower-cased, because `aaa` reads `åa`. */
  lemma AcceptedSpellingsCanLose(letter: char -> bool)
    ensures var strict := Marking(true, false, FlagOnly, 1.0);
            var r := Rules(strict, ACCEPT_AA, {}, Alphabet(letter, LowerA));
            var loose := strict.(caseSensitive := false);
            var E, T := [DcToken(0, "Aå", "")], [DcToken(0, "Aaa", "")];
            && Looser(loose, strict)
            && Diff(r, E, T).words.exact == 1
            && Diff(r.(marking := loose), E, T).words.exact == 0
  {
    var strict := Marking(true, false, FlagOnly, 1.0);
    var loose := strict.(caseSensitive := false);
    var r := Rules(strict, ACCEPT_AA, {}, Alphabet(letter, LowerA));
    var e, g := DcToken(0, "Aå", ""), DcToken(0, "Aaa", "");
    KeysOfAaa(letter, strict, loose);
    OneWordExact(r, e, g);
    OneWordExact(r.(marking := loose), e, g);
  }

  lemma KeysOfAaa(letter: char -> bool, strict: Marking, loose: Marking)
    requires strict.caseSensitive && !strict.punctuation && !loose.caseSensitive && !loose.punctuation
    ensures var abc, e, g := Alphabet(letter, LowerA), DcToken(0, "Aå", ""), DcToken(0, "Aaa", "");
            && SameKey(strict, ACCEPT_AA, abc)(e, g)
            && !SameKey(loose, ACCEPT_AA, abc)(e, g)
  {
    assert |"Aå"| == 2 && |"Aaa"| == 3;
    assert LowerA("Aå") == "aå" && LowerA("Aaa") == "aaa";
    AcceptAaa("Aå", "Aå");
    AcceptAaa("Aaa", "Aå");
    AcceptAaa("aå", "aå");
    AcceptAaa("aaa", "åa");
    var abc, e, g := Alphabet(letter, LowerA), DcToken(0, "Aå", ""), DcToken(0, "Aaa", "");
    assert CompareKey(e, strict, ACCEPT_AA, abc) == AcceptFrom("Aå", [("å", ["aa"])], 0);
    assert CompareKey(g, strict, ACCEPT_AA, abc) == AcceptFrom("Aaa", [("å", ["aa"])], 0);
    assert CompareKey(e, loose, ACCEPT_AA, abc) == AcceptFrom("aå", [("å", ["aa"])], 0);
    assert CompareKey(g, loose, ACCEPT_AA, abc) == AcceptFrom("aaa", [("å", ["aa"])], 0);
    var x, y := "aå", "åa";
    assert x[0] != y[0];
  }

  lemma AcceptAaa(word: string, read: string)
    requires read == (if word == "Aå" then "Aå" else if word == "Aaa" then "Aå" else if word == "aå" then "aå" else "åa")
    requires word in ["Aå", "Aaa", "aå", "aaa"]
    ensures AcceptFrom(word, [("å", ["aa"])], 0) == read
  {
    var accepted := [("å", ["aa"])];
    assert AcceptFrom(word, accepted, 0) == AcceptEach(word, "å", ["aa"], 0) == ReplaceAll(word, "aa", "å");
    if word == "Aaa" {
      assert word[..2] == "Aa" != "aa" && word[1..] == "aa";
      assert "aa"[..2] == "aa" && "aa"[2..] == "";
      assert ReplaceAll("aa", "aa", "å") == "å" + ReplaceAll("", "aa", "å");
    } else if word == "aaa" {
      assert word[..2] == "aa" && word[2..] == "a";
    } else {
      assert word[..2] == word && word[1] == 'å' && "aa"[1] == 'a' && word[1..] == "å";
    }
  }

  // ----- From texts -----

  function Tail(text: string, ts: seq<Token>, k: nat): string
    requires k < |ts|
  {
    var to := if k + 1 < |ts| then ts[k + 1].s else |text|;
    if ts[k].e <= to <= |text| then NoSpaces(text[ts[k].e..to]) else ""
  }

  function NoSpaces(s: string): string {
    if s == "" then "" else (if IsSpace(s[0]) then "" else [s[0]]) + NoSpaces(s[1..])
  }

  /** The words of a sentence, each with the punctuation that follows it. */
  function Sentence(abc: Alphabet, text: string): seq<DcToken> {
    var ts := Tokenize(abc, text);
    seq(|ts|, k requires 0 <= k < |ts| => DcToken(ts[k].i, ts[k].w, Tail(text, ts, k)))
  }

  lemma SentenceIsWordly(abc: Alphabet, text: string)
    requires Lawful(abc)
    ensures Numbered(Sentence(abc, text)) && WordlyTokens(abc, Sentence(abc, text)) && CleanWords(Sentence(abc, text))
    ensures Written(Sentence(abc, text)) == WordList(abc, text)
  {
    var ts, dc := Tokenize(abc, text), Sentence(abc, text);
    TokenizeOrdered(abc, text);
    TokensAreWordly(abc, text);
    forall t | t in dc ensures Wordly(abc, t.w) {
      var k :| 0 <= k < |dc| && t == dc[k];
      assert ts[k] in ts;
    }
    forall k | 0 <= k < |dc| ensures Clean(dc[k].w) { assert dc[k] in dc; }
  }

  /** The same guarantees for any two texts: nothing lost, nothing invented, a score in [0, 1]. */
  lemma TextDiffAccounts(r: Rules, expected: string, typed: string)
    requires Lawful(r.abc)
    ensures var E, T := Sentence(r.abc, expected), Sentence(r.abc, typed);
            var d := Diff(r, E, T);
            && Tile(r, d.ops, E, 0, |E|)
            && Typed(d.ops) == WordList(r.abc, typed)
            && d.words.exact == Lcs(SameKey(r.marking, r.pack, r.abc), E, T, 0, 0)
            && d.words.exact + SubWidth(d.ops) + d.words.missing == d.words.total == |E|
            && d.words.exact + d.words.near + d.words.wrong + d.words.missing + d.words.extra == |d.ops|
            && 0.0 <= d.score <= 1.0
            && (d.num2 == 2 * d.words.total <==>
                |E| == 0 || (d.words.exact == |E| && d.words.extra * ExtraCost(r.marking) == 0))
  {
    var E, T := Sentence(r.abc, expected), Sentence(r.abc, typed);
    SentenceIsWordly(r.abc, expected);
    SentenceIsWordly(r.abc, typed);
    DiffLosesNothing(r, E, T);
    CountsAddUp(r, E, T);
    ScoreRange(r, E, T);
  }
}
