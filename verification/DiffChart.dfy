/** What every operation of a word diff says, read against the two sentences alone. */
module DiffChart {
  import opened Text
  import opened Tokens
  import opened Alignment
  import opened Classify
  import opened DictationDiff
  import opened DiffAccounting
  import Typo

  // ----- What two unequal words are to each other -----

  /** One letter of the expected word is wrong, left out or put in, the word has at least four
      letters, and no letter of the fold table is involved. */
  predicate OneLetterApart(e: string, g: string, pack: Pack) {
    |e| >= 4 && Typo.OneEdit(e, g) && !OnlyFolded(e, g, pack)
  }

  /** The words differ only in letters that the language keeps apart: they fold to the same spelling,
      or one such letter was replaced, left out or put in. */
  predicate OnlyFolded(e: string, g: string, pack: Pack) {
    Folded(e, pack) == Folded(g, pack) || OneEditOnFoldLetter(e, g, pack)
  }

  /** One letter was replaced, and one of the two is in the table; or a letter of the table was left out
      or put in. */
  ghost predicate FoldEditAt(e: string, g: string, pack: Pack, u: string, x: string, y: string, v: string) {
    && Typo.ApartAt(e, g, u, x, y, v) && x != y
    && ((x != "" && x[0] in pack.fold) || (y != "" && y[0] in pack.fold))
  }

  lemma FoldEditIs(e: string, g: string, pack: Pack)
    ensures OneEditOnFoldLetter(e, g, pack) <==> exists u, x, y, v :: FoldEditAt(e, g, pack, u, x, y, v)
  {
    if FoldSubstituted(e, g, pack) {
      var k :| 0 <= k < |e| && e[k] != g[k] && (e[k] in pack.fold || g[k] in pack.fold) && e[..k] == g[..k] && e[k + 1..] == g[k + 1..];
      Typo.ReplacedAt(e, g, k);
      assert FoldEditAt(e, g, pack, e[..k], [e[k]], [g[k]], e[k + 1..]);
    }
    if FoldDropped(e, g, pack) { FoldLeftOut(e, g, pack); }
    if FoldDropped(g, e, pack) {
      FoldLeftOut(g, e, pack);
      var u, x, y, v :| FoldEditAt(g, e, pack, u, x, y, v);
      assert FoldEditAt(e, g, pack, u, y, x, v);
    }
    if u, x, y, v :| FoldEditAt(e, g, pack, u, x, y, v) { FoldEditFits(e, g, pack, u, x, y, v); }
  }

  lemma FoldLeftOut(long: string, short: string, pack: Pack)
    requires FoldDropped(long, short, pack)
    ensures exists u, x, y, v :: FoldEditAt(long, short, pack, u, x, y, v)
  {
    var k :| 0 <= k < |long| && long[k] in pack.fold && long[..k] == short[..k] && long[k + 1..] == short[k..];
    Typo.LeftOutAt(long, short, k);
    assert FoldEditAt(long, short, pack, long[..k], [long[k]], "", long[k + 1..]);
  }

  lemma FoldEditFits(e: string, g: string, pack: Pack, u: string, x: string, y: string, v: string)
    requires FoldEditAt(e, g, pack, u, x, y, v)
    ensures OneEditOnFoldLetter(e, g, pack)
  {
    var k := |u|;
    assert e[..k] == u == g[..k];
    assert e[k + |x|..] == v == g[k + |y|..];
    if x != "" { assert e[k] == x[0]; }
    if y != "" { assert g[k] == y[0]; }
  }

  /** Every letter of the table spelt out. */
  function Folded(w: string, pack: Pack): string {
    if w == "" then "" else Spelt(w[0], pack) + Folded(w[1..], pack)
  }

  function Spelt(c: char, pack: Pack): string { if c in pack.fold then pack.fold[c] else [c] }

  lemma {:induction false} FoldIs(w: string, pack: Pack, k: nat)
    requires k <= |w|
    ensures FoldFrom(w, pack, k) == Folded(w[k..], pack)
    decreases |w| - k
  {
    if k < |w| {
      FoldIs(w, pack, k + 1);
      assert w[k..][0] == w[k] && w[k..][1..] == w[k + 1..];
    }
  }

  /** The class of an error, from the two words as the marking reads them. */
  predicate ClassIs(cls: ErrorClass, e: DcToken, g: DcToken, m: Marking, pack: Pack, abc: Alphabet) {
    var x, y := Reading(e, m, pack, abc), Reading(g, m, pack, abc);
    var xl, yl := abc.lower(x), abc.lower(y);
    match cls
    case Punctuation => x == y && e.p != g.p
    case Case => x != y && xl == yl
    case Diacritic => xl != yl && OnlyFolded(xl, yl, pack)
    case Slip => xl != yl && OneLetterApart(xl, yl, pack)
    case Wrong => xl != yl && !OnlyFolded(xl, yl, pack) && !OneLetterApart(xl, yl, pack)
    case Boundary => false
  }

  lemma ClassOfIs(e: DcToken, g: DcToken, m: Marking, pack: Pack, abc: Alphabet)
    requires !SameKey(m, pack, abc)(e, g)
    ensures ClassIs(ClassOf(e, g, m, pack, abc), e, g, m, pack, abc)
  {
    var x, y := abc.lower(Reading(e, m, pack, abc)), abc.lower(Reading(g, m, pack, abc));
    FoldIs(x, pack, 0);
    FoldIs(y, pack, 0);
    assert x[0..] == x && y[0..] == y;
  }

  // ----- Where an operation stands -----

  /** The expected word `e` and the typed word `t` reached, in a stretch without kept words that ends
      at `e1` and `t1`. */
  datatype Stop = Stop(e: nat, t: nat, e1: nat, t1: nat)

  /** `n` expected words and `m` typed ones, still in the stretch, run together to the same letters. */
  predicate Alike(E: seq<DcToken>, T: seq<DcToken>, at: Stop, n: nat, m: nat, abc: Alphabet) {
    && at.e + n <= at.e1 <= |E| && at.t + m <= at.t1 <= |T|
    && Letters(abc, Written(E[at.e..at.e + n])) == Letters(abc, Written(T[at.t..at.t + m]))
  }

  /** How many words on either side the substitution takes: two joined or split words before three,
      joined before split, otherwise one for one. */
  predicate Takes(E: seq<DcToken>, T: seq<DcToken>, at: Stop, n: nat, m: nat, abc: Alphabet) {
    if Alike(E, T, at, 2, 1, abc) then n == 2 && m == 1
    else if Alike(E, T, at, 1, 2, abc) then n == 1 && m == 2
    else if Alike(E, T, at, 3, 1, abc) then n == 3 && m == 1
    else if Alike(E, T, at, 1, 3, abc) then n == 1 && m == 3
    else n == 1 && m == 1
  }

  predicate MayBeNear(cls: ErrorClass) { cls in {Punctuation, Case, Slip} }

  /** The substitution covers the words up to `next` and says which they are. */
  predicate Covers(E: seq<DcToken>, T: seq<DcToken>, op: DiffOp, at: Stop, next: Stop) {
    && op.SubOp? && at.e < next.e <= at.e1 <= |E| && at.t < next.t <= at.t1 <= |T|
    && op.i == at.e && op.n == next.e - at.e && op.p == E[next.e - 1].p
    && op.expected == Join(Written(E[at.e..next.e])) && op.wrote == Join(Written(T[at.t..next.t]))
  }

  /** The substitution is a boundary error when it takes more than one word for one, and has the class
      of its two words otherwise; it is a focus error when it covers a focus word, and near when that
      may be forgiven. */
  predicate Marks(r: Rules, E: seq<DcToken>, T: seq<DcToken>, op: DiffOp, at: Stop, next: Stop) {
    && op.SubOp? && at.e < next.e <= |E| && at.t < next.t <= |T|
    && (op.focus <==> exists k | at.e <= k < next.e :: k in r.focus)
    && (op.cls == Boundary <==> next.e - at.e + next.t - at.t > 2)
    && (op.cls != Boundary ==>
          !SameKey(r.marking, r.pack, r.abc)(E[at.e], T[at.t]) && ClassIs(op.cls, E[at.e], T[at.t], r.marking, r.pack, r.abc))
    && (op.near <==> r.marking.near != Strict && !op.focus && MayBeNear(op.cls))
  }

  /** A substitution of the expected words up to `next` by the typed ones. */
  predicate Substitutes(r: Rules, E: seq<DcToken>, T: seq<DcToken>, op: DiffOp, at: Stop, next: Stop) {
    && Covers(E, T, op, at, next) && Marks(r, E, T, op, at, next)
    && Takes(E, T, at, next.e - at.e, next.t - at.t, r.abc)
  }

  /** How words are seen: which compare equal, and which a substitution stands for. */
  datatype View = View(same: (DcToken, DcToken) -> bool, stands: (DiffOp, Stop, Stop) -> bool)

  ghost function ViewOf(r: Rules, E: seq<DcToken>, T: seq<DcToken>): View {
    View(SameKey(r.marking, r.pack, r.abc), (op: DiffOp, at: Stop, next: Stop) => Substitutes(r, E, T, op, at, next))
  }

  /** What an operation says of the words between two stops.  A kept word ends a stretch; in a stretch
      words are left out or added only when the other side has none left. */
  ghost predicate Says(r: Rules, v: View, E: seq<DcToken>, T: seq<DcToken>, op: DiffOp, at: Stop, next: Stop) {
    match op
    case EqOp(i, w, p) =>
      && at == Stop(i, at.t, i, at.t) && i < |E| && at.t < |T| && next.e == i + 1 && next.t == at.t + 1
      && v.same(E[i], T[at.t]) && w == T[at.t].w && p == T[at.t].p
    case SubOp(_, _, _, _, _, _, _, _) =>
      next.e1 == at.e1 && next.t1 == at.t1 && v.stands(op, at, next)
    case DelOp(i, expected, p, focus) =>
      && i == at.e < at.e1 <= |E| && at.t == at.t1 && next == at.(e := at.e + 1)
      && expected == E[i].w && p == E[i].p && (focus <==> i in r.focus)
    case InsOp(wrote, p) =>
      && at.e == at.e1 && at.t < at.t1 <= |T| && next == at.(t := at.t + 1)
      && wrote == T[at.t].w && p == T[at.t].p
  }

  ghost predicate Charted(r: Rules, v: View, E: seq<DcToken>, T: seq<DcToken>, ops: seq<DiffOp>, at: seq<Stop>) {
    |at| == |ops| + 1 && forall k | 0 <= k < |ops| :: Says(r, v, E, T, ops[k], at[k], at[k + 1])
  }

  // ----- One stretch -----

  /** No typed word of the stretch compares equal to an expected one. */
  ghost predicate Unrelated(rel: (DcToken, DcToken) -> bool, dels: seq<DcToken>, inss: seq<DcToken>) {
    forall p, q | 0 <= p < |dels| && 0 <= q < |inss| :: !rel(dels[p], inss[q])
  }

  /** The words of a stretch, cut out of the two sentences. */
  ghost predicate CutOut(E: seq<DcToken>, T: seq<DcToken>, dels: seq<DcToken>, inss: seq<DcToken>, at: Stop) {
    at.e <= at.e1 <= |E| && at.t <= at.t1 <= |T| && dels == E[at.e..at.e1] && inss == T[at.t..at.t1]
  }

  lemma AlikeIs(E: seq<DcToken>, T: seq<DcToken>, dels: seq<DcToken>, inss: seq<DcToken>, s: Stop, p: nat, q: nat, n: nat, m: nat, abc: Alphabet)
    requires CutOut(E, T, dels, inss, s) && p < |dels| && q < |inss| && n >= 1 && m >= 1
    ensures var at := s.(e := s.e + p, t := s.t + q);
            Alike(E, T, at, n, m, abc) <==>
            p + n <= |dels| && q + m <= |inss| && Glued(dels[p..p + n], abc) == Glued(inss[q..q + m], abc)
  {
    if p + n <= |dels| && q + m <= |inss| {
      SliceOfSlice(E, s.e, |dels|, p, p + n);
      SliceOfSlice(T, s.t, |inss|, q, q + m);
      GluedIsLetters(dels[p..p + n], abc);
      GluedIsLetters(inss[q..q + m], abc);
    }
  }

  lemma TakesIs(E: seq<DcToken>, T: seq<DcToken>, dels: seq<DcToken>, inss: seq<DcToken>, s: Stop, p: nat, q: nat, abc: Alphabet)
    requires CutOut(E, T, dels, inss, s) && p < |dels| && q < |inss|
    ensures var at, c := s.(e := s.e + p, t := s.t + q), Cover(dels, p, inss, q, abc);
            Takes(E, T, at, c.0, c.1, abc)
  {
    AlikeIs(E, T, dels, inss, s, p, q, 2, 1, abc);
    AlikeIs(E, T, dels, inss, s, p, q, 1, 2, abc);
    AlikeIs(E, T, dels, inss, s, p, q, 3, 1, abc);
    AlikeIs(E, T, dels, inss, s, p, q, 1, 3, abc);
    assert inss[q..q + 1] == [inss[q]] && dels[p..p + 1] == [dels[p]];
  }

  lemma CoversIs(r: Rules, E: seq<DcToken>, T: seq<DcToken>, at: Stop, next: Stop, covered: seq<DcToken>, wrote: seq<DcToken>)
    requires Numbered(E) && at.e < next.e <= at.e1 <= |E| && at.t < next.t <= at.t1 <= |T|
    requires covered == E[at.e..next.e] && wrote == T[at.t..next.t]
    ensures Covers(E, T, Substitution(r, covered, wrote), at, next)
  {
    assert covered[0] == E[at.e] && covered[|covered| - 1] == E[next.e - 1];
    if |covered| == |wrote| == 1 { assert Written(covered) == [covered[0].w] && Written(wrote) == [wrote[0].w]; }
  }

  lemma MarksIs(r: Rules, E: seq<DcToken>, T: seq<DcToken>, at: Stop, next: Stop, covered: seq<DcToken>, wrote: seq<DcToken>)
    requires Numbered(E) && at.e < next.e <= |E| && at.t < next.t <= |T|
    requires covered == E[at.e..next.e] && wrote == T[at.t..next.t] && !SameKey(r.marking, r.pack, r.abc)(E[at.e], T[at.t])
    ensures Marks(r, E, T, Substitution(r, covered, wrote), at, next)
  {
    FocusCovered(r, covered, at.e);
    assert covered[0] == E[at.e] && wrote[0] == T[at.t];
    ClassOfIs(covered[0], wrote[0], r.marking, r.pack, r.abc);
  }

  lemma PairFacts(rel: (DcToken, DcToken) -> bool, E: seq<DcToken>, T: seq<DcToken>, dels: seq<DcToken>, inss: seq<DcToken>, s: Stop, p: nat, q: nat, n: nat, m: nat)
    requires CutOut(E, T, dels, inss, s) && Unrelated(rel, dels, inss) && p < |dels| && q < |inss|
    requires 1 <= n && p + n <= |dels| && 1 <= m && q + m <= |inss|
    ensures dels[p..p + n] == E[s.e + p..s.e + p + n] && inss[q..q + m] == T[s.t + q..s.t + q + m]
    ensures !rel(E[s.e + p], T[s.t + q])
  {
    SliceOfSlice(E, s.e, |dels|, p, p + n);
    SliceOfSlice(T, s.t, |inss|, q, q + m);
    assert dels[p] == E[s.e + p] && inss[q] == T[s.t + q];
  }

  /** The next words of both sides, as many as the substitution takes. */
  ghost predicate Ready(r: Rules, rel: (DcToken, DcToken) -> bool, E: seq<DcToken>, T: seq<DcToken>, at: Stop, next: Stop, n: nat, m: nat,
                        covered: seq<DcToken>, wrote: seq<DcToken>) {
    && next == at.(e := at.e + n, t := at.t + m)
    && at.e < next.e <= at.e1 <= |E| && at.t < next.t <= at.t1 <= |T|
    && covered == E[at.e..next.e] && wrote == T[at.t..next.t] && !rel(E[at.e], T[at.t])
    && Takes(E, T, at, n, m, r.abc)
  }

  lemma PairReady(r: Rules, rel: (DcToken, DcToken) -> bool, E: seq<DcToken>, T: seq<DcToken>, dels: seq<DcToken>, inss: seq<DcToken>, s: Stop, p: nat, q: nat, n: nat, m: nat)
    requires CutOut(E, T, dels, inss, s) && p < |dels| && q < |inss|
    requires Unrelated(rel, dels, inss) && (n, m) == Cover(dels, p, inss, q, r.abc)
    ensures Ready(r, rel, E, T, s.(e := s.e + p, t := s.t + q), s.(e := s.e + (p + n), t := s.t + (q + m)), n, m,
                  dels[p..p + n], inss[q..q + m])
  {
    TakesIs(E, T, dels, inss, s, p, q, r.abc);
    PairFacts(rel, E, T, dels, inss, s, p, q, n, m);
  }

  lemma Paired(r: Rules, E: seq<DcToken>, T: seq<DcToken>, at: Stop, next: Stop, n: nat, m: nat, covered: seq<DcToken>, wrote: seq<DcToken>)
    requires Numbered(E) && Ready(r, SameKey(r.marking, r.pack, r.abc), E, T, at, next, n, m, covered, wrote)
    ensures Substitutes(r, E, T, Substitution(r, covered, wrote), at, next)
  {
    CoversIs(r, E, T, at, next, covered, wrote);
    MarksIs(r, E, T, at, next, covered, wrote);
  }

  /** A view that lets every true substitution stand. */
  ghost predicate Allows(v: View, r: Rules, E: seq<DcToken>, T: seq<DcToken>) {
    forall op, at, next | Substitutes(r, E, T, op, at, next) :: v.stands(op, at, next)
  }

  lemma PairStep(r: Rules, dels: seq<DcToken>, p: nat, inss: seq<DcToken>, q: nat, n: nat, m: nat)
    requires p < |dels| && q < |inss| && (n, m) == Cover(dels, p, inss, q, r.abc)
    ensures StepOf(r)(dels, p, inss, q) == (Substitution(r, dels[p..p + n], inss[q..q + m]), p + n, q + m)
  {}

  /** The step is a substitution that stands for the next words of both sides. */
  ghost predicate PairsAt(v: View, step: Stepper, dels: seq<DcToken>, inss: seq<DcToken>, s: Stop, p: nat, q: nat) {
    var next := step(dels, p, inss, q);
    next.0.SubOp? && v.stands(next.0, s.(e := s.e + p, t := s.t + q), s.(e := s.e + next.1, t := s.t + next.2))
  }

  ghost predicate Takeable(v: View, step: Stepper, dels: seq<DcToken>, inss: seq<DcToken>, s: Stop, p: nat, q: nat, op: DiffOp, p': nat, q': nat) {
    && step(dels, p, inss, q) == (op, p', q') && op.SubOp?
    && v.stands(op, s.(e := s.e + p, t := s.t + q), s.(e := s.e + p', t := s.t + q'))
  }

  lemma PairsFrom(v: View, step: Stepper, dels: seq<DcToken>, inss: seq<DcToken>, s: Stop, p: nat, q: nat, op: DiffOp, p': nat, q': nat)
    requires Takeable(v, step, dels, inss, s, p, q, op, p', q')
    ensures PairsAt(v, step, dels, inss, s, p, q)
  {}

  lemma PairStands(r: Rules, v: View, E: seq<DcToken>, T: seq<DcToken>, dels: seq<DcToken>, inss: seq<DcToken>, s: Stop, p: nat, q: nat, n: nat, m: nat)
    returns (op: DiffOp)
    requires Numbered(E) && CutOut(E, T, dels, inss, s) && Unrelated(SameKey(r.marking, r.pack, r.abc), dels, inss)
    requires p < |dels| && q < |inss| && (n, m) == Cover(dels, p, inss, q, r.abc) && Allows(v, r, E, T)
    ensures Takeable(v, StepOf(r), dels, inss, s, p, q, op, p + n, q + m)
  {
    op := Substitution(r, dels[p..p + n], inss[q..q + m]);
    PairStep(r, dels, p, inss, q, n, m);
    PairReady(r, SameKey(r.marking, r.pack, r.abc), E, T, dels, inss, s, p, q, n, m);
    Paired(r, E, T, s.(e := s.e + p, t := s.t + q), s.(e := s.e + (p + n), t := s.t + (q + m)), n, m, dels[p..p + n], inss[q..q + m]);
  }

  lemma StepPairsAt(r: Rules, v: View, E: seq<DcToken>, T: seq<DcToken>, dels: seq<DcToken>, inss: seq<DcToken>, s: Stop, p: nat, q: nat, n: nat, m: nat)
    requires Numbered(E) && CutOut(E, T, dels, inss, s) && Unrelated(SameKey(r.marking, r.pack, r.abc), dels, inss)
    requires p < |dels| && q < |inss| && (n, m) == Cover(dels, p, inss, q, r.abc) && Allows(v, r, E, T)
    ensures PairsAt(v, StepOf(r), dels, inss, s, p, q)
  {
    var op := PairStands(r, v, E, T, dels, inss, s, p, q, n, m);
    PairsFrom(v, StepOf(r), dels, inss, s, p, q, op, p + n, q + m);
  }

  /** While both sides have words left, the steps are substitutions. */
  ghost predicate AllPairs(v: View, step: Stepper, dels: seq<DcToken>, inss: seq<DcToken>, s: Stop) {
    forall p: nat, q: nat | p < |dels| && q < |inss| :: PairsAt(v, step, dels, inss, s, p, q)
  }

  lemma StepPairs(r: Rules, v: View, E: seq<DcToken>, T: seq<DcToken>, dels: seq<DcToken>, inss: seq<DcToken>, s: Stop)
    requires Numbered(E) && CutOut(E, T, dels, inss, s) && Unrelated(SameKey(r.marking, r.pack, r.abc), dels, inss) && Allows(v, r, E, T)
    ensures AllPairs(v, StepOf(r), dels, inss, s)
  {
    forall p: nat, q: nat | p < |dels| && q < |inss| ensures PairsAt(v, StepOf(r), dels, inss, s, p, q) {
      var c := Cover(dels, p, inss, q, r.abc);
      StepPairsAt(r, v, E, T, dels, inss, s, p, q, c.0, c.1);
    }
  }

  /** When one side has run out, the step leaves out or adds the next word of the other. */
  ghost predicate Rests(r: Rules, step: Stepper, dels: seq<DcToken>, inss: seq<DcToken>) {
    forall p: nat, q: nat | Open(dels, p, inss, q) && (p == |dels| || q == |inss|) ::
      step(dels, p, inss, q) == if p < |dels| then (Missing(r, dels[p]), p + 1, q) else (InsOp(inss[q].w, inss[q].p), p, q + 1)
  }

  lemma StepRests(r: Rules, dels: seq<DcToken>, inss: seq<DcToken>)
    ensures Rests(r, StepOf(r), dels, inss)
  {}

  ghost predicate StepIs(r: Rules, v: View, E: seq<DcToken>, T: seq<DcToken>, step: Stepper, dels: seq<DcToken>, inss: seq<DcToken>, s: Stop, p: nat, q: nat)
    requires Open(dels, p, inss, q)
  {
    var next := step(dels, p, inss, q);
    Says(r, v, E, T, next.0, s.(e := s.e + p, t := s.t + q), s.(e := s.e + next.1, t := s.t + next.2))
  }

  lemma StepSays(r: Rules, v: View, E: seq<DcToken>, T: seq<DcToken>, step: Stepper, dels: seq<DcToken>, inss: seq<DcToken>, s: Stop, p: nat, q: nat)
    requires Numbered(E) && CutOut(E, T, dels, inss, s) && AllPairs(v, step, dels, inss, s) && Rests(r, step, dels, inss) && Open(dels, p, inss, q)
    ensures StepIs(r, v, E, T, step, dels, inss, s, p, q)
  {
    if p == |dels| {
      assert inss[q] == T[s.t + q];
    } else if q == |inss| {
      assert dels[p] == E[s.e + p];
    } else {
      assert PairsAt(v, step, dels, inss, s, p, q);
    }
  }

  /** A stretch is charted step by step. */
  lemma {:induction false} SeamChart(r: Rules, v: View, E: seq<DcToken>, T: seq<DcToken>, step: Stepper, dels: seq<DcToken>, inss: seq<DcToken>,
                                     s: Stop, p: nat, q: nat) returns (at: seq<Stop>)
    requires Advances(step) && p <= |dels| && q <= |inss|
    requires forall p: nat, q: nat | Open(dels, p, inss, q) :: StepIs(r, v, E, T, step, dels, inss, s, p, q)
    ensures Charted(r, v, E, T, SeamBy(step, dels, p, inss, q), at)
    ensures at[0] == s.(e := s.e + p, t := s.t + q) && at[|at| - 1] == s.(e := s.e + |dels|, t := s.t + |inss|)
    decreases |dels| - p + |inss| - q
  {
    var here := s.(e := s.e + p, t := s.t + q);
    if Open(dels, p, inss, q) {
      var next := step(dels, p, inss, q);
      assert StepFits(dels, p, inss, q, next) && StepIs(r, v, E, T, step, dels, inss, s, p, q);
      var rest := SeamChart(r, v, E, T, step, dels, inss, s, next.1, next.2);
      at := [here] + rest;
      ChartCons(r, v, E, T, next.0, SeamBy(step, dels, next.1, inss, next.2), here, rest);
    } else {
      at := [here];
    }
  }

  lemma ChartCons(r: Rules, v: View, E: seq<DcToken>, T: seq<DcToken>, op: DiffOp, rest: seq<DiffOp>, here: Stop, at: seq<Stop>)
    requires Charted(r, v, E, T, rest, at) && Says(r, v, E, T, op, here, at[0])
    ensures Charted(r, v, E, T, [op] + rest, [here] + at)
  {
    var ops, all := [op] + rest, [here] + at;
    forall k | 0 <= k < |ops| ensures Says(r, v, E, T, ops[k], all[k], all[k + 1]) {
      if k > 0 { assert ops[k] == rest[k - 1] && all[k] == at[k - 1] && all[k + 1] == at[k]; }
    }
  }

  lemma ChartConcat(r: Rules, v: View, E: seq<DcToken>, T: seq<DcToken>, a: seq<DiffOp>, b: seq<DiffOp>, at: seq<Stop>, then': seq<Stop>)
    requires Charted(r, v, E, T, a, at) && Charted(r, v, E, T, b, then') && at[|at| - 1] == then'[0]
    ensures Charted(r, v, E, T, a + b, at + then'[1..])
  {
    var ops, all := a + b, at + then'[1..];
    forall k | 0 <= k < |ops| ensures Says(r, v, E, T, ops[k], all[k], all[k + 1]) {
      if k < |a| {
        assert ops[k] == a[k] && all[k] == at[k] && all[k + 1] == at[k + 1];
      } else {
        var m := k - |a|;
        assert ops[k] == b[m] && all[k + 1] == then'[m + 1] && all[k] == then'[m];
      }
    }
  }

  // ----- The walk between kept words -----

  /** Steps that keep no pair lose none: nothing between them is related. */
  lemma {:induction false} WalkSkips(rel: (DcToken, DcToken) -> bool, E: seq<DcToken>, T: seq<DcToken>, raw: seq<Op>, x: nat, n: nat, i: nat, j: nat)
    returns (i': nat, j': nat)
    requires i <= |E| && j <= |T| && x + n <= |raw| && (forall t | x <= t < x + n :: !raw[t].Both?)
    requires raw[x..] == Walk(rel, E, T, i, j)
    ensures i <= i' <= |E| && j <= j' <= |T| && raw[x + n..] == Walk(rel, E, T, i', j')
    ensures Lcs(rel, E, T, i, j) == Lcs(rel, E, T, i', j')
    decreases n
  {
    if n == 0 {
      i', j' := i, j;
    } else {
      var op := raw[x];
      assert raw[x..][0] == op && raw[x..][1..] == raw[x + 1..];
      assert raw[x + 1..] == Walk(rel, E, T, NextA(op), NextB(op));
      i', j' := WalkSkips(rel, E, T, raw, x + 1, n - 1, NextA(op), NextB(op));
    }
  }

  lemma NothingRelated(rel: (DcToken, DcToken) -> bool, E: seq<DcToken>, T: seq<DcToken>, i: nat, j: nat, i': nat, j': nat, p: nat, q: nat)
    requires i <= p < i' <= |E| && j <= q < j' <= |T| && Lcs(rel, E, T, i, j) == Lcs(rel, E, T, i', j')
    ensures !rel(E[p], T[q])
  {
    if rel(E[p], T[q]) {
      var m := LargestMatching(rel, E, T, i', j');
      MatchingWeaken(rel, E, T, p + 1, q + 1, i', j', m);
      MatchingCons(rel, E, T, p, q, m);
      MatchingWeaken(rel, E, T, i, j, p, q, [(p, q)] + m);
      LcsIsUpperBound(rel, E, T, i, j, [(p, q)] + m);
    }
  }

  lemma StretchUnrelated(rel: (DcToken, DcToken) -> bool, E: seq<DcToken>, T: seq<DcToken>, i: nat, j: nat, i': nat, j': nat)
    requires i <= i' <= |E| && j <= j' <= |T| && Lcs(rel, E, T, i, j) == Lcs(rel, E, T, i', j')
    ensures Unrelated(rel, E[i..i'], T[j..j'])
  {
    var dels, inss := E[i..i'], T[j..j'];
    forall p, q | 0 <= p < |dels| && 0 <= q < |inss| ensures !rel(dels[p], inss[q]) {
      NothingRelated(rel, E, T, i, j, i', j', i + p, j + q);
      assert dels[p] == E[i + p] && inss[q] == T[j + q];
    }
  }

  // ----- The whole diff -----

  /** Words that the view keeps apart do not compare equal. */
  ghost predicate Agrees(v: View, r: Rules) {
    forall dels, inss | Unrelated(v.same, dels, inss) :: Unrelated(SameKey(r.marking, r.pack, r.abc), dels, inss)
  }

  /** The seam of one stretch, charted from its first words to its last. */
  lemma StretchChart(r: Rules, v: View, E: seq<DcToken>, T: seq<DcToken>, s: Stop) returns (at: seq<Stop>)
    requires Numbered(E) && s.e <= s.e1 <= |E| && s.t <= s.t1 <= |T| && Allows(v, r, E, T)
    requires Agrees(v, r) && Unrelated(v.same, E[s.e..s.e1], T[s.t..s.t1])
    ensures Charted(r, v, E, T, Seam(r, E[s.e..s.e1], 0, T[s.t..s.t1], 0), at)
    ensures at[0] == s && at[|at| - 1] == Stop(s.e1, s.t1, s.e1, s.t1)
  {
    var dels, inss := E[s.e..s.e1], T[s.t..s.t1];
    StepPairs(r, v, E, T, dels, inss, s);
    StepRests(r, dels, inss);
    StepAdvances(r);
    forall p: nat, q: nat | Open(dels, p, inss, q) ensures StepIs(r, v, E, T, StepOf(r), dels, inss, s, p, q) {
      StepSays(r, v, E, T, StepOf(r), dels, inss, s, p, q);
    }
    SeamIsBy(r, dels, 0, inss, 0);
    at := SeamChart(r, v, E, T, StepOf(r), dels, inss, s, 0, 0);
  }

  /** The walk from step `x` on, with `i` expected and `j` typed words behind. */
  ghost predicate Ahead(rel: (DcToken, DcToken) -> bool, E: seq<DcToken>, T: seq<DcToken>, raw: seq<Op>, x: nat, i: nat, j: nat) {
    && InRange(raw, E, T) && x <= |raw| && i <= |E| && j <= |T|
    && raw[x..] == Walk(rel, E, T, i, j)
  }

  /** The chart starts at these words; the walk is kept there or at its end. */
  ghost predicate StartsAt(at: seq<Stop>, raw: seq<Op>, x: nat, i: nat, j: nat)
    requires x <= |raw|
  {
    && at != [] && at[0].e == i && at[0].t == j
    && (x == |raw| || raw[x].Both? ==> at[0] == Stop(i, j, i, j))
  }

  lemma {:induction false} ChartFrom(r: Rules, v: View, E: seq<DcToken>, T: seq<DcToken>, raw: seq<Op>, x: nat, i: nat, j: nat) returns (at: seq<Stop>)
    requires Ahead(v.same, E, T, raw, x, i, j) && Numbered(E) && Allows(v, r, E, T) && Agrees(v, r)
    ensures Charted(r, v, E, T, DiffFrom(r, E, T, raw, x), at) && StartsAt(at, raw, x, i, j)
    ensures at[|at| - 1] == Stop(|E|, |T|, |E|, |T|)
    decreases |raw| - x
  {
    if x == |raw| {
      at := EndChart(r, v, E, T, raw, i, j);
    } else if raw[x].Both? {
      KeptStep(v, E, T, raw, x, i, j);
      var rest := ChartFrom(r, v, E, T, raw, x + 1, i + 1, j + 1);
      at := KeptChart(r, v, E, T, raw, x, i, j, rest);
    } else {
      var y, i', j' := StretchEnd(v.same, E, T, raw, x, i, j);
      var rest := ChartFrom(r, v, E, T, raw, y, i', j');
      at := JoinCharts(r, v, E, T, raw, x, y, i, j, i', j', rest);
    }
  }

  lemma EndChart(r: Rules, v: View, E: seq<DcToken>, T: seq<DcToken>, raw: seq<Op>, i: nat, j: nat) returns (at: seq<Stop>)
    requires Ahead(v.same, E, T, raw, |raw|, i, j)
    ensures Charted(r, v, E, T, DiffFrom(r, E, T, raw, |raw|), at) && i == |E| && j == |T| && Leads(at, Stop(i, j, i, j), Stop(i, j, i, j))
  {
    at := [Stop(i, j, i, j)];
  }

  /** A chart from its first stop to its last. */
  ghost predicate Leads(at: seq<Stop>, first: Stop, last: Stop) { at != [] && at[0] == first && at[|at| - 1] == last }

  lemma KeptChart(r: Rules, v: View, E: seq<DcToken>, T: seq<DcToken>, raw: seq<Op>, x: nat, i: nat, j: nat, rest: seq<Stop>) returns (at: seq<Stop>)
    requires Ahead(v.same, E, T, raw, x, i, j) && x < |raw| && raw[x] == Both(i, j) && i < |E| && j < |T| && Numbered(E)
    requires Charted(r, v, E, T, DiffFrom(r, E, T, raw, x + 1), rest) && rest[0].e == i + 1 && rest[0].t == j + 1
    ensures Charted(r, v, E, T, DiffFrom(r, E, T, raw, x), at) && Leads(at, Stop(i, j, i, j), rest[|rest| - 1])
  {
    at := [Stop(i, j, i, j)] + rest;
    assert raw[x..][0] == raw[x] && v.same(E[i], T[j]);
    ChartCons(r, v, E, T, Kept(E, T, raw, x), DiffFrom(r, E, T, raw, x + 1), Stop(i, j, i, j), rest);
  }

  lemma JoinCharts(r: Rules, v: View, E: seq<DcToken>, T: seq<DcToken>, raw: seq<Op>, x: nat, y: nat, i: nat, j: nat, i': nat, j': nat, rest: seq<Stop>)
    returns (at: seq<Stop>)
    requires Numbered(E) && InRange(raw, E, T) && Allows(v, r, E, T) && Agrees(v, r)
    requires x < |raw| && !raw[x].Both? && y == x + SeamLength(raw, x) && i <= i' <= |E| && j <= j' <= |T|
    requires InRange(raw[x..y], E, T) && SpelledA(E, raw[x..y]) == E[i..i'] && SpelledB(T, raw[x..y]) == T[j..j']
    requires Unrelated(v.same, E[i..i'], T[j..j'])
    requires Charted(r, v, E, T, DiffFrom(r, E, T, raw, y), rest) && rest[0] == Stop(i', j', i', j')
    ensures Charted(r, v, E, T, DiffFrom(r, E, T, raw, x), at) && Leads(at, Stop(i, j, i', j'), rest[|rest| - 1])
  {
    var seam := StretchChart(r, v, E, T, Stop(i, j, i', j'));
    DiffUnfold(r, E, T, raw, x, y, E[i..i'], T[j..j']);
    at := seam + rest[1..];
    ChartConcat(r, v, E, T, Seam(r, E[i..i'], 0, T[j..j'], 0), DiffFrom(r, E, T, raw, y), seam, rest);
  }

  lemma KeptStep(v: View, E: seq<DcToken>, T: seq<DcToken>, raw: seq<Op>, x: nat, i: nat, j: nat)
    requires Ahead(v.same, E, T, raw, x, i, j) && x < |raw| && raw[x].Both?
    ensures raw[x] == Both(i, j) && i < |E| && j < |T| && Ahead(v.same, E, T, raw, x + 1, i + 1, j + 1)
  {
    assert raw[x..][0] == raw[x] && raw[x..][1..] == raw[x + 1..];
  }

  lemma StretchEnd(rel: (DcToken, DcToken) -> bool, E: seq<DcToken>, T: seq<DcToken>, raw: seq<Op>, x: nat, i: nat, j: nat)
    returns (y: nat, i': nat, j': nat)
    requires Ahead(rel, E, T, raw, x, i, j) && x < |raw| && !raw[x].Both?
    ensures x < y == x + SeamLength(raw, x) <= |raw| && i <= i' <= |E| && j <= j' <= |T| && (y == |raw| || raw[y].Both?)
    ensures InRange(raw[x..y], E, T) && SpelledA(E, raw[x..y]) == E[i..i'] && SpelledB(T, raw[x..y]) == T[j..j']
    ensures Ahead(rel, E, T, raw, y, i', j') && Unrelated(rel, E[i..i'], T[j..j'])
  {
    WalkIsScript(rel, E, T, i, j);
    y, i', j' := NextKept(rel, E, T, raw, x, i, j);
    var a, b := WalkSkips(rel, E, T, raw, x, y - x, i, j);
    WalkIsScript(rel, E, T, a, b);
    ScriptStart(rel, E, T, raw[y..], a, b, i', j');
    StretchUnrelated(rel, E, T, i, j, i', j');
  }

  /** A script ends at the end of both sides, so its length and its pairs fix where it starts. */
  lemma ScriptStart(rel: (DcToken, DcToken) -> bool, E: seq<DcToken>, T: seq<DcToken>, ops: seq<Op>, i: nat, j: nat, i': nat, j': nat)
    requires Script(rel, E, T, ops, i, j) && Script(rel, E, T, ops, i', j')
    ensures i == i' && j == j'
  {
    ScriptSpells(rel, E, T, ops, i, j);
    ScriptSpells(rel, E, T, ops, i', j');
  }

  /** The operations of a word diff, each with the words it stands for.  Kept words compare equal.  In a
      stretch between kept words no two compare equal; they are paired in order, two or three words
      for one where the letters run together alike, until one side has none left; what remains is left
      out or added. */
  lemma DiffCharted(r: Rules, E: seq<DcToken>, T: seq<DcToken>) returns (at: seq<Stop>)
    requires Numbered(E)
    ensures Charted(r, ViewOf(r, E, T), E, T, DiffOps(r, E, T), at)
    ensures at[0].e == at[0].t == 0 && at[|at| - 1] == Stop(|E|, |T|, |E|, |T|)
  {
    var raw := RawOf(r, E, T);
    RawInRange(r, E, T);
    assert raw[0..] == raw;
    at := ChartFrom(r, ViewOf(r, E, T), E, T, raw, 0, 0, 0);
  }

  /** A one-for-one substitution: which words it stands for, and when it is forgiven half.  It is near
      exactly when near errors count at all, the word is no focus word, and the two words differ only
      in punctuation, only in capitals, or by one letter in a word of four letters or more that folds
      differently and was not mistaken in a letter the language keeps apart. */
  lemma NearCredit(r: Rules, E: seq<DcToken>, T: seq<DcToken>, k: nat) returns (e: nat, t: nat)
    requires Numbered(E) && k < |DiffOps(r, E, T)| && DiffOps(r, E, T)[k].SubOp? && DiffOps(r, E, T)[k].cls != Boundary
    ensures e < |E| && t < |T| && !SameKey(r.marking, r.pack, r.abc)(E[e], T[t])
    ensures var op := DiffOps(r, E, T)[k];
            var x, y := r.abc.lower(Reading(E[e], r.marking, r.pack, r.abc)), r.abc.lower(Reading(T[t], r.marking, r.pack, r.abc));
            && op.i == e && op.n == 1 && op.expected == E[e].w && op.p == E[e].p && op.wrote == T[t].w
            && ClassIs(op.cls, E[e], T[t], r.marking, r.pack, r.abc)
            && (op.near <==> r.marking.near != Strict && e !in r.focus && (x == y || OneLetterApart(x, y, r.pack)))
  {
    var at := DiffCharted(r, E, T);
    e, t := at[k].e, at[k].t;
    var op := DiffOps(r, E, T)[k];
    assert Says(r, ViewOf(r, E, T), E, T, op, at[k], at[k + 1]);
    OneForOne(r, E, T, op, at[k], at[k + 1]);
  }

  lemma OneForOne(r: Rules, E: seq<DcToken>, T: seq<DcToken>, op: DiffOp, at: Stop, next: Stop)
    requires Substitutes(r, E, T, op, at, next) && op.cls != Boundary
    ensures at.e < |E| && at.t < |T| && next.e == at.e + 1 && next.t == at.t + 1
    ensures op.i == at.e && op.n == 1 && op.expected == E[at.e].w && op.p == E[at.e].p && op.wrote == T[at.t].w
    ensures var x, y := r.abc.lower(Reading(E[at.e], r.marking, r.pack, r.abc)), r.abc.lower(Reading(T[at.t], r.marking, r.pack, r.abc));
            && !SameKey(r.marking, r.pack, r.abc)(E[at.e], T[at.t]) && ClassIs(op.cls, E[at.e], T[at.t], r.marking, r.pack, r.abc)
            && (op.near <==> r.marking.near != Strict && at.e !in r.focus && (x == y || OneLetterApart(x, y, r.pack)))
  {
    assert Written(E[at.e..at.e + 1]) == [E[at.e].w] && Written(T[at.t..at.t + 1]) == [T[at.t].w];
    assert op.focus <==> at.e in r.focus;
  }
}
