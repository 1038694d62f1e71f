/** What the two-pass grading of marks computes. */
module MarkMatching {
  import opened Options
  import opened Ratios
  import opened Tokens
  import opened Sorting
  import opened Coordinates
  import opened MarkGrading

  // ----- The counts add up, whatever the runs -----

  lemma {:induction false} PassDistinct(key: seq<Run>, marks: seq<Run>, skip: set<nat>, used: set<nat>, exactly: bool, ki: nat)
    requires ki <= |key|
    ensures var p := Pass(key, marks, skip, used, exactly, ki);
            && TakenBy(p) !! used
            && |TakenBy(p)| == CountTaken(p)
            && forall u | u in TakenBy(p) :: u < |marks|
    decreases |key| - ki
  {
    if ki < |key| {
      var m := if ki in skip then None else FirstFree(key[ki], marks, used, exactly, 0);
      var rest := Pass(key, marks, skip, used + Taken(m), exactly, ki + 1);
      PassDistinct(key, marks, skip, used + Taken(m), exactly, ki + 1);
      DistinctStep(used, m, rest, |marks|);
    }
  }

  lemma DistinctStep(used: set<nat>, m: Option<nat>, rest: seq<Option<nat>>, n: nat)
    requires m.Some? ==> m.value !in used && m.value < n
    requires TakenBy(rest) !! used + Taken(m) && |TakenBy(rest)| == CountTaken(rest) && forall u | u in TakenBy(rest) :: u < n
    ensures var p := [m] + rest;
            TakenBy(p) !! used && |TakenBy(p)| == CountTaken(p) && forall u | u in TakenBy(p) :: u < n
  {
    assert ([m] + rest)[1..] == rest;
    assert |Taken(m) + TakenBy(rest)| == |Taken(m)| + |TakenBy(rest)|;
  }

  lemma {:induction false} CountsMissed(e: seq<Option<nat>>, n: seq<Option<nat>>, k: nat)
    requires k <= |e| == |n| && forall t | 0 <= t < |e| && e[t].Some? :: n[t].None?
    ensures CountTaken(e[k..]) + CountTaken(n[k..]) + CountMissed(e, n, k) == |e| - k
    decreases |e| - k
  {
    if k < |e| {
      CountsMissed(e, n, k + 1);
      assert e[k..][0] == e[k] && e[k..][1..] == e[k + 1..];
      assert n[k..][0] == n[k] && n[k..][1..] == n[k + 1..];
    }
  }

  lemma {:induction false} SkippedTakeNone(key: seq<Run>, marks: seq<Run>, skip: set<nat>, used: set<nat>, exactly: bool, ki: nat, t: nat)
    requires ki <= t < |key| && t in skip
    ensures Pass(key, marks, skip, used, exactly, ki)[t - ki] == None
    decreases |key| - ki
  {
    if ki < t {
      var m := if ki in skip then None else FirstFree(key[ki], marks, used, exactly, 0);
      SkippedTakeNone(key, marks, skip, used + Taken(m), exactly, ki + 1, t);
    }
  }

  function From(i: nat, n: nat): (r: set<nat>)
    ensures forall u: nat :: u in r <==> i <= u < n
    decreases n - i
  {
    if i >= n then {} else {i} + From(i + 1, n)
  }

  lemma {:induction false} FromSize(i: nat, n: nat)
    requires i <= n
    ensures |From(i, n)| == n - i
    decreases n - i
  {
    if i < n {
      FromSize(i + 1, n);
      FromLess(i, n, {});
      assert From(i, n) - {} == From(i, n) && From(i + 1, n) - {} == From(i + 1, n);
    }
  }

  lemma FromLess(i: nat, n: nat, used: set<nat>)
    requires i < n
    ensures |From(i, n) - used| == (if i in used then 0 else 1) + |From(i + 1, n) - used|
  {
    var rest := From(i + 1, n) - used;
    assert From(i, n) - used == if i in used then rest else {i} + rest;
  }

  lemma {:induction false} FreeCount(ts: seq<Token>, marks: seq<Run>, used: set<nat>, i: nat)
    requires i <= |marks|
    ensures |FreeCells(ts, marks, used, i)| == |From(i, |marks|) - used|
    decreases |marks| - i
  {
    if i < |marks| {
      FreeCount(ts, marks, used, i + 1);
      FromLess(i, |marks|, used);
    } else {
      assert From(i, |marks|) - used == {};
    }
  }

  /** Every key span is exact, near or missed; every mark is exact, near or a false positive; the
      score lies in [0, 1], and is full exactly when every span was hit and no mark cost anything. */
  lemma GradeAddsUp(ts: seq<Token>, key: seq<Run>, marks: seq<Run>, penalty: Penalty)
    ensures var g := GradeOf(ts, key, marks, penalty);
            && g.exact + g.near + g.miss == |key|
            && g.exact + g.near + g.fp == |marks|
            && g.earned2 <= 2 * g.total
            && 0.0 <= ScoreOf(g) <= 1.0
            && (g.earned2 == 2 * g.total <==> g.exact == |key| && (|key| == 0 || Weight2(penalty) * g.fp == 0))
  {
    var g, e, n := GradeOf(ts, key, marks, penalty), ExactPass(key, marks), NearPass(key, marks);
    PassesApart(key, marks);
    CountsMissed(e, n, 0);
    assert e[0..] == e && n[0..] == n;
    FreeMarksCount(ts, marks, TakenBy(e), TakenBy(n));
    EarnedRange(g.exact, g.fp, penalty, g.total);
  }

  /** The passes serve no span and take no mark twice. */
  lemma PassesApart(key: seq<Run>, marks: seq<Run>)
    ensures var e, n := ExactPass(key, marks), NearPass(key, marks);
            && TakenBy(e) !! TakenBy(n) && (forall u | u in TakenBy(e) + TakenBy(n) :: u < |marks|)
            && |TakenBy(e)| == CountTaken(e) && |TakenBy(n)| == CountTaken(n)
            && forall t | 0 <= t < |e| && e[t].Some? :: n[t].None?
  {
    var e, n := ExactPass(key, marks), NearPass(key, marks);
    PassDistinct(key, marks, {}, {}, true, 0);
    PassDistinct(key, marks, Served(e), TakenBy(e), false, 0);
    forall t | 0 <= t < |e| && e[t].Some? ensures n[t].None? {
      SkippedTakeNone(key, marks, Served(e), TakenBy(e), false, 0, t);
    }
  }

  lemma FreeMarksCount(ts: seq<Token>, marks: seq<Run>, a: set<nat>, b: set<nat>)
    requires a !! b && (forall u | u in a + b :: u < |marks|)
    ensures |a| + |b| + |FreeCells(ts, marks, a + b, 0)| == |marks|
  {
    FreeCount(ts, marks, a + b, 0);
    FromSize(0, |marks|);
    var all := From(0, |marks|);
    assert all == (all - (a + b)) + (a + b);
    assert |a + b| == |a| + |b|;
  }

  lemma EarnedRange(exact: nat, fp: nat, p: Penalty, total: nat)
    requires exact <= total
    ensures Earned2(exact, fp, p) <= 2 * total
    ensures Earned2(exact, fp, p) == 2 * total <==> exact == total && (total == 0 || Weight2(p) * fp == 0)
    ensures total > 0 ==> 0.0 <= Earned2(exact, fp, p) as real / (2 * total) as real <= 1.0
  {
    var loss := Weight2(p) * fp;
    assert loss >= 0;
    if total > 0 {
      var r := Earned2(exact, fp, p) as real / (2 * total) as real;
      assert r * (2 * total) as real == Earned2(exact, fp, p) as real;
    }
  }

  /** What a false positive costs: nothing, half a mark or a mark. */
  function Price(p: Penalty): real {
    match p
    case Off => 0.0
    case HalfMark => 0.5
    case FullMark => 1.0
  }

  function Net(g: Grade, p: Penalty): real { g.exact as real - Price(p) * g.fp as real }

  /** The score is the marks found exactly less the price of the false positives, over the key; never
      below zero, and zero for an empty key. */
  lemma ScoreIsNet(ts: seq<Token>, key: seq<Run>, marks: seq<Run>, penalty: Penalty)
    ensures var g := GradeOf(ts, key, marks, penalty);
            && g.total == |key|
            && ScoreOf(g) == if |key| == 0 || Net(g, penalty) <= 0.0 then 0.0 else Net(g, penalty) / |key| as real
  {
    var g := GradeOf(ts, key, marks, penalty);
    NetIs(g.exact, g.fp, penalty, g.total);
  }

  lemma NetIs(exact: nat, fp: nat, p: Penalty, total: nat)
    ensures var net, score := exact as real - Price(p) * fp as real, Earned2(exact, fp, p);
            (if total == 0 then 0.0 else score as real / (2 * total) as real)
            == if total == 0 || net <= 0.0 then 0.0 else net / total as real
  {
    var cost := Weight2(p) * fp;
    assert cost as real == 2.0 * Price(p) * fp as real;
    if total > 0 && 2 * exact > cost {
      HalvesCancel(exact as real - 0.5 * cost as real, total as real);
      assert (2 * exact - cost) as real == 2.0 * (exact as real - 0.5 * cost as real);
    }
  }

  /** While the score stays positive, one false positive more costs exactly nothing, half a mark or a
      mark. */
  lemma FalsePositiveCosts(ts: seq<Token>, key: seq<Run>, marks: seq<Run>, more: seq<Run>, penalty: Penalty)
    requires var g, h := GradeOf(ts, key, marks, penalty), GradeOf(ts, key, more, penalty);
             h.exact == g.exact && h.fp == g.fp + 1 && ScoreOf(h) > 0.0
    ensures var g, h := GradeOf(ts, key, marks, penalty), GradeOf(ts, key, more, penalty);
            ScoreOf(g) - ScoreOf(h) == Price(penalty) / |key| as real
  {
    ScoreIsNet(ts, key, marks, penalty);
    ScoreIsNet(ts, key, more, penalty);
    var g, h := GradeOf(ts, key, marks, penalty), GradeOf(ts, key, more, penalty);
    assert Net(g, penalty) == Net(h, penalty) + Price(penalty);
    SumOver(Net(h, penalty), Price(penalty), |key| as real);
  }

  lemma SumOver(x: real, y: real, n: real)
    requires n > 0.0
    ensures (x + y) / n == x / n + y / n
  {}

  // ----- The cells that are drawn -----

  /** In a pass every span takes the first mark that fits it and that no span before it took. */
  lemma {:induction false} PassAt(key: seq<Run>, marks: seq<Run>, skip: set<nat>, used: set<nat>, exactly: bool, ki: nat, k: nat)
    requires ki <= k < |key|
    ensures var p := Pass(key, marks, skip, used, exactly, ki);
            p[k - ki] == if k in skip then None else FirstFree(key[k], marks, used + TakenBy(p[..k - ki]), exactly, 0)
    decreases k - ki
  {
    var m := if ki in skip then None else FirstFree(key[ki], marks, used, exactly, 0);
    var rest := Pass(key, marks, skip, used + Taken(m), exactly, ki + 1);
    if k == ki {
      assert used + {} == used;
    } else {
      PassAt(key, marks, skip, used + Taken(m), exactly, ki + 1, k);
      PassPrefix(m, rest, used, k - ki);
    }
  }

  lemma PassPrefix(m: Option<nat>, rest: seq<Option<nat>>, used: set<nat>, n: nat)
    requires 0 < n <= |rest|
    ensures used + TakenBy(([m] + rest)[..n]) == (used + Taken(m)) + TakenBy(rest[..n - 1])
  {
    assert ([m] + rest)[..n] == [m] + rest[..n - 1];
    assert ([m] + rest[..n - 1])[1..] == rest[..n - 1];
  }

  lemma {:induction false} PassCellsAre(ts: seq<Token>, key: seq<Run>, marks: seq<Run>, exactly: bool, pass: seq<Option<nat>>, k: nat, c: Cell)
    requires k <= |pass| == |key|
    ensures c in PassCells(ts, key, marks, exactly, pass, k) <==> exists t | k <= t < |key| :: c in CellFor(ts, key[t], marks, exactly, pass[t])
    decreases |pass| - k
  {
    if k < |pass| { PassCellsAre(ts, key, marks, exactly, pass, k + 1, c); }
  }

  function FreeCell(ts: seq<Token>, marks: seq<Run>, u: nat): Cell
    requires u < |marks|
  {
    Cell(ToRange(ts, marks[u]), FalsePositive, None)
  }

  lemma {:induction false} FreeCellsHave(ts: seq<Token>, marks: seq<Run>, used: set<nat>, i: nat, u: nat)
    requires i <= u < |marks| && u !in used
    ensures FreeCell(ts, marks, u) in FreeCells(ts, marks, used, i)
    decreases u - i
  {
    if i < u { FreeCellsHave(ts, marks, used, i + 1, u); }
  }

  lemma {:induction false} FreeCellsFrom(ts: seq<Token>, marks: seq<Run>, used: set<nat>, i: nat, c: Cell) returns (u: nat)
    requires i <= |marks| && c in FreeCells(ts, marks, used, i)
    ensures i <= u < |marks| && u !in used && c == FreeCell(ts, marks, u)
    decreases |marks| - i
  {
    if i !in used && c == FreeCell(ts, marks, i) { u := i; } else { u := FreeCellsFrom(ts, marks, used, i + 1, c); }
  }

  lemma {:induction false} PassCellsCount(ts: seq<Token>, key: seq<Run>, marks: seq<Run>, exactly: bool, pass: seq<Option<nat>>, k: nat)
    requires k <= |pass| == |key| && forall t | 0 <= t < |pass| && pass[t].Some? :: pass[t].value < |marks|
    ensures |PassCells(ts, key, marks, exactly, pass, k)| == CountTaken(pass[k..])
    decreases |pass| - k
  {
    if k < |pass| {
      PassCellsCount(ts, key, marks, exactly, pass, k + 1);
      assert pass[k..][0] == pass[k] && pass[k..][1..] == pass[k + 1..];
    }
  }

  predicate Shows(ts: seq<Token>, marks: seq<Run>, m: Option<nat>, c: Cell, state: CellState, keyRange: Option<Range>) {
    m.Some? && m.value < |marks| && c == Cell(ToRange(ts, marks[m.value]), state, keyRange)
  }

  predicate DrawnExactly(ts: seq<Token>, marks: seq<Run>, e: seq<Option<nat>>, c: Cell) {
    exists k | 0 <= k < |e| :: Shows(ts, marks, e[k], c, Exact, None)
  }

  predicate DrawnNearly(ts: seq<Token>, key: seq<Run>, marks: seq<Run>, n: seq<Option<nat>>, c: Cell) {
    |n| == |key| && exists k | 0 <= k < |n| :: Shows(ts, marks, n[k], c, Near, Some(ToRange(ts, key[k])))
  }

  predicate DrawnFree(ts: seq<Token>, marks: seq<Run>, used: set<nat>, c: Cell) {
    exists u: nat | u < |marks| && u !in used :: c == FreeCell(ts, marks, u)
  }

  lemma ExactCells(ts: seq<Token>, key: seq<Run>, marks: seq<Run>, e: seq<Option<nat>>, c: Cell)
    requires |e| == |key|
    ensures c in PassCells(ts, key, marks, true, e, 0) <==> DrawnExactly(ts, marks, e, c)
  {
    PassCellsAre(ts, key, marks, true, e, 0, c);
    forall t | 0 <= t < |key| ensures c in CellFor(ts, key[t], marks, true, e[t]) <==> Shows(ts, marks, e[t], c, Exact, None) {}
  }

  lemma NearCells(ts: seq<Token>, key: seq<Run>, marks: seq<Run>, n: seq<Option<nat>>, c: Cell)
    requires |n| == |key|
    ensures c in PassCells(ts, key, marks, false, n, 0) <==> DrawnNearly(ts, key, marks, n, c)
  {
    PassCellsAre(ts, key, marks, false, n, 0, c);
    forall t | 0 <= t < |key|
      ensures c in CellFor(ts, key[t], marks, false, n[t]) <==> Shows(ts, marks, n[t], c, Near, Some(ToRange(ts, key[t]))) {}
  }

  lemma FalseCells(ts: seq<Token>, marks: seq<Run>, used: set<nat>, c: Cell)
    ensures c in FreeCells(ts, marks, used, 0) <==> DrawnFree(ts, marks, used, c)
  {
    if c in FreeCells(ts, marks, used, 0) { var u := FreeCellsFrom(ts, marks, used, 0, c); }
    if DrawnFree(ts, marks, used, c) {
      var u: nat :| u < |marks| && u !in used && c == FreeCell(ts, marks, u);
      FreeCellsHave(ts, marks, used, 0, u);
    }
  }

  /** The cells are in text order: each mark that hit a span exactly, drawn where it stands; each that
      overlaps one, with where that one really is; and each mark left over, as a false positive. */
  lemma CellsAre(ts: seq<Token>, key: seq<Run>, marks: seq<Run>, penalty: Penalty, c: Cell)
    ensures var g, e, n := GradeOf(ts, key, marks, penalty), ExactPass(key, marks), NearPass(key, marks);
            && Sorted(g.cells, CellKey)
            && (c in g.cells <==>
                DrawnExactly(ts, marks, e, c) || DrawnNearly(ts, key, marks, n, c) || DrawnFree(ts, marks, TakenBy(e) + TakenBy(n), c))
  {
    var e, n := ExactPass(key, marks), NearPass(key, marks);
    var used := TakenBy(e) + TakenBy(n);
    SortByIs(PassCells(ts, key, marks, true, e, 0) + PassCells(ts, key, marks, false, n, 0) + FreeCells(ts, marks, used, 0), CellKey);
    ExactCells(ts, key, marks, e, c);
    NearCells(ts, key, marks, n, c);
    FalseCells(ts, marks, used, c);
  }

  /** Every mark is drawn once. */
  lemma CellsCount(ts: seq<Token>, key: seq<Run>, marks: seq<Run>, penalty: Penalty)
    ensures |GradeOf(ts, key, marks, penalty).cells| == |marks|
  {
    var e, n := ExactPass(key, marks), NearPass(key, marks);
    var used := TakenBy(e) + TakenBy(n);
    PassesApart(key, marks);
    forall t | 0 <= t < |e| && e[t].Some? ensures e[t].value < |marks| { TakenHas(e, t); }
    forall t | 0 <= t < |n| && n[t].Some? ensures n[t].value < |marks| { TakenHas(n, t); }
    PassCellsCount(ts, key, marks, true, e, 0);
    PassCellsCount(ts, key, marks, false, n, 0);
    assert e[0..] == e && n[0..] == n;
    FreeMarksCount(ts, marks, TakenBy(e), TakenBy(n));
    SortByIs(PassCells(ts, key, marks, true, e, 0) + PassCells(ts, key, marks, false, n, 0) + FreeCells(ts, marks, used, 0), CellKey);
  }

  // ----- One sweep from left to right -----

  /** The first mark from `j` on that does not end before `k`. */
  function Next(marks: seq<Run>, k: Run, j: nat): (u: nat)
    requires j <= |marks|
    ensures j <= u <= |marks| && (u < |marks| ==> marks[u].t1 >= k.t0)
    decreases |marks| - j
  {
    if j < |marks| && marks[j].t1 < k.t0 then Next(marks, k, j + 1) else j
  }

  lemma {:induction false} NextIs(marks: seq<Run>, k: Run, j: nat)
    requires j <= |marks|
    ensures forall t | j <= t < Next(marks, k, j) :: marks[t].t1 < k.t0
    decreases |marks| - j
  {
    if j < |marks| && marks[j].t1 < k.t0 { NextIs(marks, k, j + 1); }
  }

  function Step(key: seq<Run>, marks: seq<Run>, ki: nat, j: nat): (s: (Option<nat>, nat))
    requires ki < |key| && j <= |marks|
    ensures s.1 <= |marks|
  {
    var u := Next(marks, key[ki], j);
    if u < |marks| && marks[u].t0 <= key[ki].t1 then (Some(u), u + 1) else (None, u)
  }

  function Sweep(key: seq<Run>, marks: seq<Run>, ki: nat, j: nat): (out: seq<Option<nat>>)
    requires ki <= |key| && j <= |marks|
    ensures |out| == |key| - ki
    decreases |key| - ki
  {
    if ki == |key| then [] else var (m, j') := Step(key, marks, ki, j); [m] + Sweep(key, marks, ki + 1, j')
  }

  // ----- Both orders of grading agree with the sweep -----

  /** What the sweep has settled when it stands at key span `ki` and mark `j`. */
  ghost predicate Settled(key: seq<Run>, marks: seq<Run>, used: set<nat>, ki: nat, j: nat) {
    ki < |key| ==>
      forall u | 0 <= u < j && u < |marks| ::
        marks[u].t0 < key[ki].t0 && (u !in used ==> marks[u].t1 < key[ki].t0)
  }

  /** Marks from `j` on are taken only if they equal a key span still to come … */
  ghost predicate AheadExact(key: seq<Run>, marks: seq<Run>, used: set<nat>, ki: nat, j: nat) {
    forall u {:trigger u in used} | j <= u < |marks| && u in used :: exists k | ki <= k < |key| :: key[k] == marks[u]
  }

  /** … and those are taken and their spans skipped. */
  ghost predicate ExactTaken(key: seq<Run>, marks: seq<Run>, skip: set<nat>, used: set<nat>, ki: nat) {
    forall u, k | 0 <= u < |marks| && ki <= k < |key| && key[k] == marks[u] :: u in used && k in skip
  }

  lemma SweepStep(key: seq<Run>, marks: seq<Run>, used: set<nat>, ki: nat, j: nat)
    requires Disjoint(key) && Disjoint(marks) && ki < |key| && j <= |marks|
    requires Settled(key, marks, used, ki, j)
    ensures var (m, j') := Step(key, marks, ki, j); Settled(key, marks, used + Taken(m), ki + 1, j')
  {
    var (m, j') := Step(key, marks, ki, j);
    var k := key[ki];
    NextIs(marks, k, j);
    if ki + 1 < |key| {
      assert k.t1 < key[ki + 1].t0;
      forall u | 0 <= u < j' && u < |marks|
        ensures marks[u].t0 < key[ki + 1].t0 && (u !in used + Taken(m) ==> marks[u].t1 < key[ki + 1].t0)
      {
        if m.Some? && u < m.value { assert marks[u].t1 < marks[m.value].t0; }
      }
    }
  }

  /** An exact mark is where the sweep lands. */
  lemma SweepFindsExact(key: seq<Run>, marks: seq<Run>, used: set<nat>, ki: nat, j: nat, m: nat)
    requires Disjoint(key) && Disjoint(marks) && ki < |key| && j <= |marks| && m < |marks|
    requires Settled(key, marks, used, ki, j) && marks[m] == key[ki]
    ensures Step(key, marks, ki, j) == (Some(m), m + 1)
  {
    var u := Next(marks, key[ki], j);
    NextIs(marks, key[ki], j);
    assert j <= m && marks[m].t1 >= key[ki].t0 && u <= m;
    RunOrder(marks, u, m);
  }

  lemma FirstFreeUnique(k: Run, marks: seq<Run>, used: set<nat>, exactly: bool, u: nat)
    requires u < |marks| && u !in used && Fits(k, marks[u], exactly)
    requires forall t | 0 <= t < u :: t in used || !Fits(k, marks[t], exactly)
    ensures FirstFree(k, marks, used, exactly, 0) == Some(u)
  {
    FirstFreeIs(k, marks, used, exactly, 0);
  }

  /** Where no mark equals the span, the near pass takes the sweep's mark. */
  lemma NearTakesSweep(key: seq<Run>, marks: seq<Run>, used: set<nat>, ki: nat, j: nat)
    requires Disjoint(key) && Disjoint(marks) && ki < |key| && j <= |marks|
    requires Settled(key, marks, used, ki, j) && AheadExact(key, marks, used, ki, j)
    requires forall u | 0 <= u < |marks| :: marks[u] != key[ki]
    ensures FirstFree(key[ki], marks, used, false, 0) == Step(key, marks, ki, j).0
  {
    var k, u := key[ki], Next(marks, key[ki], j);
    NextIs(marks, k, j);
    if u < |marks| {
      AheadApart(key, marks, used, ki, j, u);
      if marks[u].t0 <= k.t1 {
        FirstFreeUnique(k, marks, used, false, u);
      } else {
        forall t | 0 <= t < |marks| ensures t in used || !Overlaps(k, marks[t]) { RunOrder(marks, u, t); }
      }
    }
  }

  /** A taken mark ahead equals a later span, so it lies behind this one. */
  lemma AheadApart(key: seq<Run>, marks: seq<Run>, used: set<nat>, ki: nat, j: nat, u: nat)
    requires Disjoint(key) && ki < |key| && j <= u < |marks| && AheadExact(key, marks, used, ki, j)
    requires marks[u] != key[ki]
    ensures u in used ==> marks[u].t0 > key[ki].t1
  {
    if u in used {
      var t :| ki <= t < |key| && key[t] == marks[u];
      RunOrder(key, ki, t);
    }
  }

  lemma AheadStep(key: seq<Run>, marks: seq<Run>, used: set<nat>, ki: nat, j: nat)
    requires Disjoint(marks) && ki < |key| && j <= |marks| && AheadExact(key, marks, used, ki, j)
    requires var m := Step(key, marks, ki, j).0;
             forall u | 0 <= u < |marks| && marks[u] == key[ki] :: m == Some(u)
    ensures var (m, j') := Step(key, marks, ki, j); AheadExact(key, marks, used + Taken(m), ki + 1, j')
  {
    var (m, j') := Step(key, marks, ki, j);
    forall u | j' <= u < |marks| && u in used + Taken(m) ensures exists k | ki + 1 <= k < |key| :: key[k] == marks[u] {
      var k :| ki <= k < |key| && key[k] == marks[u];
      assert k != ki;
    }
  }

  /** Everything the near pass relies on at span `ki`, with the sweep at mark `j`. */
  ghost predicate NearReady(key: seq<Run>, marks: seq<Run>, skip: set<nat>, used: set<nat>, ki: nat, j: nat) {
    && Disjoint(key) && Disjoint(marks) && ki <= |key| && j <= |marks|
    && Settled(key, marks, used, ki, j)
    && AheadExact(key, marks, used, ki, j)
    && ExactTaken(key, marks, skip, used, ki)
    && (forall k {:trigger k in skip} | ki <= k < |key| && k in skip :: exists u | 0 <= u < |marks| :: marks[u] == key[k])
  }

  function NearTakes(key: seq<Run>, marks: seq<Run>, skip: set<nat>, used: set<nat>, ki: nat): Option<nat>
    requires ki < |key|
  {
    if ki in skip then None else FirstFree(key[ki], marks, used, false, 0)
  }

  function ExactOf(key: seq<Run>, marks: seq<Run>, ki: nat): Option<nat>
    requires ki < |key|
  {
    FirstFree(key[ki], marks, {}, true, 0)
  }

  /** At one span: the exact mark if there is one, else the near pass's, is the sweep's. */
  lemma NearStep(key: seq<Run>, marks: seq<Run>, skip: set<nat>, used: set<nat>, ki: nat, j: nat)
    requires NearReady(key, marks, skip, used, ki, j) && ki < |key|
    ensures var m, e, s := NearTakes(key, marks, skip, used, ki), ExactOf(key, marks, ki), Step(key, marks, ki, j);
            && (if e.Some? then e else m) == s.0
            && used + Taken(m) == used + Taken(s.0)
  {
    if ki in skip {
      var u :| 0 <= u < |marks| && marks[u] == key[ki];
      SweepFindsExact(key, marks, used, ki, j, u);
      OnlyExact(marks, u);
      FirstFreeUnique(key[ki], marks, {}, true, u);
      assert u in used;
    } else {
      forall u | 0 <= u < |marks| ensures marks[u] != key[ki] { assert marks[u] == key[ki] ==> ki in skip; }
      NearTakesSweep(key, marks, used, ki, j);
    }
  }

  lemma NearReadyStep(key: seq<Run>, marks: seq<Run>, skip: set<nat>, used: set<nat>, ki: nat, j: nat)
    requires NearReady(key, marks, skip, used, ki, j) && ki < |key|
    ensures var m, e, s := NearTakes(key, marks, skip, used, ki), ExactOf(key, marks, ki), Step(key, marks, ki, j);
            NearReady(key, marks, skip, used + Taken(m), ki + 1, s.1) && (if e.Some? then e else m) == s.0
  {
    NearStep(key, marks, skip, used, ki, j);
    SweepStep(key, marks, used, ki, j);
    forall u | 0 <= u < |marks| && marks[u] == key[ki] ensures Step(key, marks, ki, j).0 == Some(u) {
      SweepFindsExact(key, marks, used, ki, j, u);
    }
    AheadStep(key, marks, used, ki, j);
  }

  /** What span `t` gets from the near pass … */
  function NearAt(key: seq<Run>, marks: seq<Run>, skip: set<nat>, used: set<nat>, ki: nat, t: nat): Option<nat>
    requires ki <= t < |key|
    decreases t - ki
  {
    var m := NearTakes(key, marks, skip, used, ki);
    if t == ki then m else NearAt(key, marks, skip, used + Taken(m), ki + 1, t)
  }

  lemma {:induction false} NearAtIs(key: seq<Run>, marks: seq<Run>, skip: set<nat>, used: set<nat>, ki: nat, t: nat)
    requires ki <= t < |key|
    ensures Pass(key, marks, skip, used, false, ki)[t - ki] == NearAt(key, marks, skip, used, ki, t)
    decreases t - ki
  {
    if ki < t { NearAtIs(key, marks, skip, used + Taken(NearTakes(key, marks, skip, used, ki)), ki + 1, t); }
  }

  /** … and from the sweep. */
  function SweepAt(key: seq<Run>, marks: seq<Run>, ki: nat, j: nat, t: nat): Option<nat>
    requires ki <= t < |key| && j <= |marks|
    decreases t - ki
  {
    var (m, j') := Step(key, marks, ki, j);
    if t == ki then m else SweepAt(key, marks, ki + 1, j', t)
  }

  lemma {:induction false} SweepAtIs(key: seq<Run>, marks: seq<Run>, ki: nat, j: nat, t: nat)
    requires ki <= t < |key| && j <= |marks|
    ensures Sweep(key, marks, ki, j)[t - ki] == SweepAt(key, marks, ki, j, t)
    decreases t - ki
  {
    if ki < t { SweepAtIs(key, marks, ki + 1, Step(key, marks, ki, j).1, t); }
  }

  /** The near pass together with the exact matches is the sweep. */
  lemma {:induction false} NearPassSweeps(key: seq<Run>, marks: seq<Run>, skip: set<nat>, used: set<nat>, ki: nat, j: nat, t: nat)
    requires NearReady(key, marks, skip, used, ki, j) && ki <= t < |key|
    ensures var e, n := ExactOf(key, marks, t), NearAt(key, marks, skip, used, ki, t);
            (if e.Some? then e else n) == SweepAt(key, marks, ki, j, t)
    decreases |key| - ki
  {
    NearReadyStep(key, marks, skip, used, ki, j);
    if ki < t {
      var m, j' := NearTakes(key, marks, skip, used, ki), Step(key, marks, ki, j).1;
      NearPassSweeps(key, marks, skip, used + Taken(m), ki + 1, j', t);
    }
  }

  lemma OnlyExact(marks: seq<Run>, u: nat)
    requires Disjoint(marks) && u < |marks|
    ensures forall t | 0 <= t < |marks| && t != u :: marks[t] != marks[u]
  {
    forall t | 0 <= t < |marks| && t != u ensures marks[t] != marks[u] {
      if t < u { assert marks[t].t1 < marks[u].t0; } else { assert marks[u].t1 < marks[t].t0; }
    }
  }

  /** Taken marks that do not equal the span do not matter to it. */
  lemma {:induction false} OthersTaken(k: Run, marks: seq<Run>, used: set<nat>, i: nat)
    requires i <= |marks| && forall u | u in used && u < |marks| :: marks[u] != k
    ensures FirstFree(k, marks, used, true, i) == FirstFree(k, marks, {}, true, i)
    decreases |marks| - i
  {
    if i < |marks| { OthersTaken(k, marks, used, i + 1); }
  }

  /** Every taken mark equals a key span before `ki`. */
  ghost predicate TakenBehind(key: seq<Run>, marks: seq<Run>, used: set<nat>, ki: nat) {
    forall u | u in used && u < |marks| :: exists k | 0 <= k < ki && k < |key| :: key[k] == marks[u]
  }

  lemma ExactStep(key: seq<Run>, marks: seq<Run>, used: set<nat>, ki: nat)
    requires Disjoint(key) && ki < |key| && TakenBehind(key, marks, used, ki)
    ensures FirstFree(key[ki], marks, used, true, 0) == ExactOf(key, marks, ki)
    ensures TakenBehind(key, marks, used + Taken(ExactOf(key, marks, ki)), ki + 1)
  {
    OnlyExact(key, ki);
    OthersTaken(key[ki], marks, used, 0);
    var m := ExactOf(key, marks, ki);
    forall u | u in used + Taken(m) && u < |marks|
      ensures exists k | 0 <= k < ki + 1 && k < |key| :: key[k] == marks[u]
    {
      if u in used {
        var k :| 0 <= k < ki && k < |key| && key[k] == marks[u];
      } else {
        assert key[ki] == marks[u];
      }
    }
  }

  /** In the exact pass the taken marks never matter: a span's own mark is still free. */
  lemma {:induction false} ExactPassIs(key: seq<Run>, marks: seq<Run>, used: set<nat>, ki: nat, t: nat)
    requires Disjoint(key) && ki <= t < |key| && TakenBehind(key, marks, used, ki)
    ensures Pass(key, marks, {}, used, true, ki)[t - ki] == ExactOf(key, marks, t)
    decreases |key| - ki
  {
    ExactStep(key, marks, used, ki);
    if ki < t { ExactPassIs(key, marks, used + Taken(ExactOf(key, marks, ki)), ki + 1, t); }
  }

  // ----- The marks each key span gets -----

  /** The mark a key span gets from either pass. */
  function Assignment(key: seq<Run>, marks: seq<Run>): (out: seq<Option<nat>>)
    ensures |out| == |key|
  {
    var e, n := ExactPass(key, marks), NearPass(key, marks);
    seq(|key|, k requires 0 <= k < |key| => if e[k].Some? then e[k] else n[k])
  }

  lemma ExactServes(key: seq<Run>, marks: seq<Run>)
    requires Disjoint(key) && Disjoint(marks)
    ensures var e := ExactPass(key, marks);
            && (forall t | 0 <= t < |key| :: e[t] == ExactOf(key, marks, t))
            && NearReady(key, marks, Served(e), TakenBy(e), 0, 0)
  {
    var e := ExactPass(key, marks);
    forall t | 0 <= t < |key| ensures e[t] == ExactOf(key, marks, t) { ExactPassIs(key, marks, {}, 0, t); }
    forall u, k | 0 <= u < |marks| && 0 <= k < |key| && key[k] == marks[u] ensures u in TakenBy(e) && k in Served(e) {
      OnlyExact(marks, u);
      FirstFreeUnique(key[k], marks, {}, true, u);
      TakenHas(e, k);
    }
    forall u | 0 <= u < |marks| && u in TakenBy(e) ensures exists k | 0 <= k < |key| :: key[k] == marks[u] {
      var k := TakenFrom(e, u);
      assert e[k] == ExactOf(key, marks, k);
    }
    forall k | 0 <= k < |key| && k in Served(e) ensures exists u | 0 <= u < |marks| :: marks[u] == key[k] {
      assert e[k] == ExactOf(key, marks, k) && marks[e[k].value] == key[k];
    }
  }

  lemma {:induction false} TakenHas(pass: seq<Option<nat>>, k: nat)
    requires k < |pass| && pass[k].Some?
    ensures pass[k].value in TakenBy(pass)
  {
    if k > 0 { TakenHas(pass[1..], k - 1); }
  }

  lemma {:induction false} TakenFrom(pass: seq<Option<nat>>, u: nat) returns (k: nat)
    requires u in TakenBy(pass)
    ensures k < |pass| && pass[k] == Some(u)
  {
    if pass[0] == Some(u) { k := 0; } else { k := TakenFrom(pass[1..], u); k := k + 1; }
  }

  /** The prototype's order: span by span, an exact mark if one is free, else the first that
      overlaps. */
  function SinglePass(key: seq<Run>, marks: seq<Run>, used: set<nat>, ki: nat): (out: seq<Option<nat>>)
    requires ki <= |key|
    ensures |out| == |key| - ki
    decreases |key| - ki
  {
    if ki == |key| then []
    else
      var e := FirstFree(key[ki], marks, used, true, 0);
      var m := if e.Some? then e else FirstFree(key[ki], marks, used, false, 0);
      [m] + SinglePass(key, marks, used + Taken(m), ki + 1)
  }

  ghost predicate SingleReady(key: seq<Run>, marks: seq<Run>, used: set<nat>, ki: nat, j: nat) {
    && Disjoint(key) && Disjoint(marks) && ki <= |key| && j <= |marks|
    && Settled(key, marks, used, ki, j) && forall u | u in used :: u < j
  }

  lemma SingleStep(key: seq<Run>, marks: seq<Run>, used: set<nat>, ki: nat, j: nat)
    requires SingleReady(key, marks, used, ki, j) && ki < |key|
    ensures var e := FirstFree(key[ki], marks, used, true, 0);
            (if e.Some? then e else FirstFree(key[ki], marks, used, false, 0)) == Step(key, marks, ki, j).0
  {
    var e := FirstFree(key[ki], marks, used, true, 0);
    if e.Some? {
      SweepFindsExact(key, marks, used, ki, j, e.value);
    } else {
      FirstFreeIs(key[ki], marks, used, true, 0);
      NearTakesSweep(key, marks, used, ki, j);
    }
  }

  lemma SingleUnfold(key: seq<Run>, marks: seq<Run>, used: set<nat>, ki: nat, j: nat)
    requires SingleReady(key, marks, used, ki, j) && ki < |key|
    ensures var (m, j') := Step(key, marks, ki, j);
            && SingleReady(key, marks, used + Taken(m), ki + 1, j')
            && SinglePass(key, marks, used, ki) == [m] + SinglePass(key, marks, used + Taken(m), ki + 1)
  {
    SingleStep(key, marks, used, ki, j);
    SweepStep(key, marks, used, ki, j);
  }

  lemma {:induction false} SinglePassSweeps(key: seq<Run>, marks: seq<Run>, used: set<nat>, ki: nat, j: nat)
    requires SingleReady(key, marks, used, ki, j)
    ensures SinglePass(key, marks, used, ki) == Sweep(key, marks, ki, j)
    decreases |key| - ki
  {
    if ki < |key| {
      var (m, j') := Step(key, marks, ki, j);
      SingleUnfold(key, marks, used, ki, j);
      SinglePassSweeps(key, marks, used + Taken(m), ki + 1, j');
    }
  }

  /** On disjoint spans and marks the two-pass order and the span-by-span order give every key
      span the same mark. */
  lemma OrdersAgree(key: seq<Run>, marks: seq<Run>)
    requires Disjoint(key) && Disjoint(marks)
    ensures Assignment(key, marks) == SinglePass(key, marks, {}, 0) == Sweep(key, marks, 0, 0)
    ensures forall k | 0 <= k < |key| ::
              ExactPass(key, marks)[k].Some? <==> exists u | 0 <= u < |marks| :: marks[u] == key[k]
  {
    AssignmentSweeps(key, marks);
    SinglePassSweeps(key, marks, {}, 0, 0);
    forall k | 0 <= k < |key|
      ensures ExactPass(key, marks)[k].Some? <==> exists u | 0 <= u < |marks| :: marks[u] == key[k]
    {
      ExactPassIs(key, marks, {}, 0, k);
      FirstFreeIs(key[k], marks, {}, true, 0);
    }
  }

  lemma AssignmentSweeps(key: seq<Run>, marks: seq<Run>)
    requires Disjoint(key) && Disjoint(marks)
    ensures Assignment(key, marks) == Sweep(key, marks, 0, 0)
  {
    var e := ExactPass(key, marks);
    ExactServes(key, marks);
    forall t | 0 <= t < |key| ensures Assignment(key, marks)[t] == Sweep(key, marks, 0, 0)[t] {
      NearPassSweeps(key, marks, Served(e), TakenBy(e), 0, 0, t);
      NearAtIs(key, marks, Served(e), TakenBy(e), 0, t);
      SweepAtIs(key, marks, 0, 0, t);
    }
  }

  // ----- The sweep is a largest one-to-one pairing -----

  /** A one-to-one pairing of key spans with marks that overlap them. */
  ghost predicate Pairing(key: seq<Run>, marks: seq<Run>, p: map<nat, nat>) {
    && (forall k | k in p :: k < |key| && p[k] < |marks| && Overlaps(key[k], marks[p[k]]))
    && (forall k, l | k in p && l in p && p[k] == p[l] :: k == l)
  }

  /** The marks of a sweep grow from `j` on, and each overlaps its span. */
  ghost predicate SweepShape(key: seq<Run>, marks: seq<Run>, ki: nat, j: nat, s: seq<Option<nat>>) {
    && ki + |s| == |key|
    && (forall t {:trigger s[t]} | 0 <= t < |s| && s[t].Some? ::
          j <= s[t].value < |marks| && Overlaps(key[ki + t], marks[s[t].value]))
    && (forall t, u | 0 <= t < u < |s| && s[t].Some? && s[u].Some? :: s[t].value < s[u].value)
  }

  lemma {:induction false} SweepIsPairing(key: seq<Run>, marks: seq<Run>, ki: nat, j: nat)
    requires ki <= |key| && j <= |marks|
    ensures SweepShape(key, marks, ki, j, Sweep(key, marks, ki, j))
    decreases |key| - ki
  {
    if ki < |key| {
      var (m, j') := Step(key, marks, ki, j);
      SweepIsPairing(key, marks, ki + 1, j');
      ShapeCons(key, marks, ki, j, m, j', Sweep(key, marks, ki + 1, j'));
    }
  }

  lemma ShapeCons(key: seq<Run>, marks: seq<Run>, ki: nat, j: nat, m: Option<nat>, j': nat, rest: seq<Option<nat>>)
    requires ki < |key| && j <= j' && SweepShape(key, marks, ki + 1, j', rest)
    requires m.Some? ==> j <= m.value < j' && m.value < |marks| && Overlaps(key[ki], marks[m.value])
    ensures SweepShape(key, marks, ki, j, [m] + rest)
  {
    var s := [m] + rest;
    forall t | 0 <= t < |s| && s[t].Some?
      ensures j <= s[t].value < |marks| && Overlaps(key[ki + t], marks[s[t].value])
    {
      if t > 0 { assert s[t] == rest[t - 1] && key[ki + t] == key[(ki + 1) + (t - 1)]; }
    }
    forall t, u | 0 <= t < u < |s| && s[t].Some? && s[u].Some? ensures s[t].value < s[u].value {
      assert s[u] == rest[u - 1];
      if t > 0 { assert s[t] == rest[t - 1]; }
    }
  }

  /** The pairs of a pass, as a map. */
  function PairsOf(pass: seq<Option<nat>>): map<nat, nat> {
    map k: nat | k < |pass| && pass[k].Some? :: pass[k].value
  }

  lemma {:induction false} ServedSize(pass: seq<Option<nat>>)
    ensures |PairsOf(pass)| == CountTaken(pass)
    decreases |pass|
  {
    if pass == [] {
      assert PairsOf(pass) == map[];
    } else {
      var n := |pass| - 1;
      var init := pass[..n];
      ServedSize(init);
      CountSnoc(init, pass[n]);
      assert pass == init + [pass[n]];
      if pass[n].Some? {
        assert PairsOf(pass).Keys == PairsOf(init).Keys + {n};
      } else {
        assert PairsOf(pass).Keys == PairsOf(init).Keys;
      }
      assert |PairsOf(pass)| == |PairsOf(pass).Keys| && |PairsOf(init)| == |PairsOf(init).Keys|;
    }
  }

  lemma {:induction false} CountSnoc(pass: seq<Option<nat>>, m: Option<nat>)
    ensures CountTaken(pass + [m]) == CountTaken(pass) + (if m.Some? then 1 else 0)
  {
    if pass != [] {
      assert (pass + [m])[1..] == pass[1..] + [m];
      CountSnoc(pass[1..], m);
    }
  }

  /** Pairs within spans from `ki` and marks from `j` on. */
  ghost predicate Within(p: map<nat, nat>, ki: nat, j: nat) { forall k | k in p :: k >= ki && p[k] >= j }

  lemma NoPairs(key: seq<Run>, marks: seq<Run>, p: map<nat, nat>, j: nat)
    requires Pairing(key, marks, p) && Within(p, |key|, j)
    ensures |p| == 0
  {
    assert forall k :: k !in p;
    assert p.Keys == {};
  }

  lemma CountCons(m: Option<nat>, rest: seq<Option<nat>>)
    ensures CountTaken([m] + rest) == (if m.Some? then 1 else 0) + CountTaken(rest)
  {
    assert ([m] + rest)[1..] == rest;
  }

  /** No pairing beats the sweep. */
  lemma {:induction false} PairingBound(key: seq<Run>, marks: seq<Run>, p: map<nat, nat>, ki: nat, j: nat)
    requires Disjoint(key) && Disjoint(marks) && ki <= |key| && j <= |marks|
    requires Pairing(key, marks, p) && Within(p, ki, j)
    ensures |p| <= CountTaken(Sweep(key, marks, ki, j))
    decreases |key| - ki
  {
    if ki == |key| {
      NoPairs(key, marks, p, j);
    } else {
      var (m, j') := Step(key, marks, ki, j);
      var q := PairingStep(key, marks, p, ki, j);
      PairingBound(key, marks, q, ki + 1, j');
      CountCons(m, Sweep(key, marks, ki + 1, j'));
    }
  }

  /** One step of the sweep costs a pairing at most the pair it makes. */
  lemma PairingStep(key: seq<Run>, marks: seq<Run>, p: map<nat, nat>, ki: nat, j: nat) returns (q: map<nat, nat>)
    requires Disjoint(key) && Disjoint(marks) && ki < |key| && j <= |marks|
    requires Pairing(key, marks, p) && Within(p, ki, j)
    ensures var (m, j') := Step(key, marks, ki, j);
            Pairing(key, marks, q) && Within(q, ki + 1, j') && |p| <= |q| + (if m.Some? then 1 else 0)
  {
    var (m, j') := Step(key, marks, ki, j);
    PairsSkip(key, marks, p, ki, j);
    if m.Some? {
      q := DropPair(key, marks, p, ki, m.value);
    } else {
      SpanAlone(key, marks, p, ki, j');
      q := p;
    }
  }

  /** Marks the sweep passes over overlap nothing that is left. */
  lemma PairsSkip(key: seq<Run>, marks: seq<Run>, p: map<nat, nat>, ki: nat, j: nat)
    requires Disjoint(key) && Disjoint(marks) && ki < |key| && j <= |marks|
    requires Pairing(key, marks, p) && Within(p, ki, j)
    ensures Within(p, ki, Next(marks, key[ki], j))
  {
    NextIs(marks, key[ki], j);
    forall k | k in p ensures p[k] >= Next(marks, key[ki], j) { RunOrder(key, ki, k); }
  }

  /** A span with no mark left that overlaps it is in no pair. */
  lemma SpanAlone(key: seq<Run>, marks: seq<Run>, p: map<nat, nat>, ki: nat, u: nat)
    requires Disjoint(marks) && ki < |key| && Pairing(key, marks, p) && Within(p, ki, u)
    requires u < |marks| ==> marks[u].t0 > key[ki].t1
    ensures Within(p, ki + 1, u)
  {
    forall k | k in p ensures k >= ki + 1 {
      RunOrder(marks, u, p[k]);
    }
  }

  /** The pair the sweep makes meets at most one pair of any pairing. */
  lemma DropPair(key: seq<Run>, marks: seq<Run>, p: map<nat, nat>, ki: nat, u: nat) returns (q: map<nat, nat>)
    requires Disjoint(key) && Disjoint(marks) && ki < |key| && u < |marks|
    requires Pairing(key, marks, p) && Within(p, ki, u) && Overlaps(key[ki], marks[u])
    ensures Pairing(key, marks, q) && Within(q, ki + 1, u + 1) && |p| <= |q| + 1
  {
    var drop: nat := ki;
    if k: nat :| k in p && k > ki && p[k] == u {
      NoCrossing(key, marks, p, ki, k, u);
      drop := k;
    }
    q := map k: nat | k in p && k != drop :: p[k];
    SubsetSize(p.Keys, q.Keys + {drop});
    assert |q.Keys + {drop}| <= |q.Keys| + 1;
    assert |p| == |p.Keys| && |q| == |q.Keys|;
  }

  /** If a later span holds mark `u`, span `ki`, which overlaps it, holds none behind it. */
  lemma NoCrossing(key: seq<Run>, marks: seq<Run>, p: map<nat, nat>, ki: nat, k: nat, u: nat)
    requires Disjoint(key) && Disjoint(marks) && Pairing(key, marks, p) && Within(p, ki, u)
    requires ki < k < |key| && u < |marks| && k in p && p[k] == u
    ensures ki !in p
  {
    RunOrder(key, ki, k);
    forall v | u < v < |marks| ensures !Overlaps(key[ki], marks[v]) { RunOrder(marks, u, v); }
  }

  lemma {:induction false} SubsetSize(a: set<nat>, b: set<nat>)
    requires a <= b
    ensures |a| <= |b|
  {
    assert b == a + (b - a);
    assert |a + (b - a)| == |a| + |b - a|;
  }

  lemma {:induction false} EitherCount(e: seq<Option<nat>>, n: seq<Option<nat>>, a: seq<Option<nat>>)
    requires |e| == |n| == |a| && forall t | 0 <= t < |e| :: a[t] == if e[t].Some? then e[t] else n[t]
    requires forall t | 0 <= t < |e| && e[t].Some? :: n[t].None?
    ensures CountTaken(a) == CountTaken(e) + CountTaken(n)
  {
    if e != [] { EitherCount(e[1..], n[1..], a[1..]); }
  }

  /** On disjoint key spans and marks, exact and near matches together are a largest one-to-one
      pairing of key spans with overlapping marks. */
  lemma GradeIsMaximum(ts: seq<Token>, key: seq<Run>, marks: seq<Run>, penalty: Penalty)
    requires Disjoint(key) && Disjoint(marks)
    ensures var g := GradeOf(ts, key, marks, penalty);
            var own := PairsOf(Assignment(key, marks));
            && Pairing(key, marks, own) && |own| == g.exact + g.near
            && forall p | Pairing(key, marks, p) :: |p| <= g.exact + g.near
  {
    var e, n, a := ExactPass(key, marks), NearPass(key, marks), Assignment(key, marks);
    OrdersAgree(key, marks);
    PassesApart(key, marks);
    EitherCount(e, n, a);
    ServedSize(a);
    SweepPairs(key, marks);
    forall p | Pairing(key, marks, p) ensures |p| <= CountTaken(a) { PairingBound(key, marks, p, 0, 0); }
  }

  lemma SweepPairs(key: seq<Run>, marks: seq<Run>)
    ensures Pairing(key, marks, PairsOf(Sweep(key, marks, 0, 0)))
  {
    var s := Sweep(key, marks, 0, 0);
    SweepIsPairing(key, marks, 0, 0);
    var p := PairsOf(s);
    forall k | k in p ensures k < |key| && p[k] < |marks| && Overlaps(key[k], marks[p[k]]) {
      assert s[k].Some? && Overlaps(key[0 + k], marks[s[k].value]);
    }
  }
}
