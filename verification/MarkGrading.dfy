/** Grading one set of snapped marks against one key: exact matches over the whole key first,
    then near ones, and every mark left over is a false positive. */
module MarkGrading {
  import opened Options
  import opened Tokens
  import opened Sorting
  import opened Coordinates

  predicate Overlaps(k: Run, m: Run) { m.t0 <= k.t1 && m.t1 >= k.t0 }

  predicate Fits(k: Run, m: Run, exactly: bool) { if exactly then m == k else Overlaps(k, m) }

  /** The first mark from `i` on that is free and fits. */
  function FirstFree(k: Run, marks: seq<Run>, used: set<nat>, exactly: bool, i: nat): (r: Option<nat>)
    requires i <= |marks|
    ensures r.Some? ==> i <= r.value < |marks| && r.value !in used && Fits(k, marks[r.value], exactly)
    decreases |marks| - i
  {
    if i == |marks| then None
    else if i !in used && Fits(k, marks[i], exactly) then Some(i)
    else FirstFree(k, marks, used, exactly, i + 1)
  }

  /** No mark before it is free and fits. */
  lemma {:induction false} FirstFreeIs(k: Run, marks: seq<Run>, used: set<nat>, exactly: bool, i: nat)
    requires i <= |marks|
    ensures var r := FirstFree(k, marks, used, exactly, i);
            forall t | i <= t < (if r.Some? then r.value else |marks|) :: t in used || !Fits(k, marks[t], exactly)
    decreases |marks| - i
  {
    if i < |marks| && (i in used || !Fits(k, marks[i], exactly)) { FirstFreeIs(k, marks, used, exactly, i + 1); }
  }

  function Taken(m: Option<nat>): set<nat> { if m.Some? then {m.value} else {} }

  /** The mark each key span from `ki` on takes in one pass; spans in `skip` take none. */
  function Pass(key: seq<Run>, marks: seq<Run>, skip: set<nat>, used: set<nat>, exactly: bool, ki: nat): (out: seq<Option<nat>>)
    requires ki <= |key|
    ensures |out| == |key| - ki
    decreases |key| - ki
  {
    if ki == |key| then []
    else
      var m := if ki in skip then None else FirstFree(key[ki], marks, used, exactly, 0);
      [m] + Pass(key, marks, skip, used + Taken(m), exactly, ki + 1)
  }

  function TakenBy(pass: seq<Option<nat>>): set<nat> {
    if pass == [] then {} else Taken(pass[0]) + TakenBy(pass[1..])
  }

  function Served(pass: seq<Option<nat>>): set<nat> { set k: nat | k < |pass| && pass[k].Some? }

  function CountTaken(pass: seq<Option<nat>>): nat {
    if pass == [] then 0 else (if pass[0].Some? then 1 else 0) + CountTaken(pass[1..])
  }

  function ExactPass(key: seq<Run>, marks: seq<Run>): (out: seq<Option<nat>>)
    ensures |out| == |key|
  {
    Pass(key, marks, {}, {}, true, 0)
  }

  function NearPass(key: seq<Run>, marks: seq<Run>): (out: seq<Option<nat>>)
    ensures |out| == |key|
  {
    var exact := ExactPass(key, marks);
    Pass(key, marks, Served(exact), TakenBy(exact), false, 0)
  }

  // ----- Result -----

  datatype CellState = Exact | Near | FalsePositive
  datatype Cell = Cell(range: Range, state: CellState, keyRange: Option<Range>)
  datatype Penalty = Off | HalfMark | FullMark

  datatype Grade = Grade(exact: nat, near: nat, miss: nat, fp: nat, total: nat, earned2: nat, cells: seq<Cell>)

  /** The cell a served key span leaves behind; a near one carries where the answer really is. */
  function CellFor(ts: seq<Token>, k: Run, marks: seq<Run>, exactly: bool, m: Option<nat>): seq<Cell> {
    if m.None? || m.value >= |marks| then []
    else if exactly then [Cell(ToRange(ts, marks[m.value]), Exact, None)]
    else [Cell(ToRange(ts, marks[m.value]), Near, Some(ToRange(ts, k)))]
  }

  function PassCells(ts: seq<Token>, key: seq<Run>, marks: seq<Run>, exactly: bool, pass: seq<Option<nat>>, k: nat): seq<Cell>
    requires k <= |pass| == |key|
    decreases |pass| - k
  {
    if k == |pass| then []
    else CellFor(ts, key[k], marks, exactly, pass[k]) + PassCells(ts, key, marks, exactly, pass, k + 1)
  }

  /** Key spans from `k` on that neither pass served. */
  function CountMissed(e: seq<Option<nat>>, n: seq<Option<nat>>, k: nat): nat
    requires k <= |e| == |n|
    decreases |e| - k
  {
    if k == |e| then 0 else (if e[k].None? && n[k].None? then 1 else 0) + CountMissed(e, n, k + 1)
  }

  function FreeCells(ts: seq<Token>, marks: seq<Run>, used: set<nat>, i: nat): seq<Cell>
    requires i <= |marks|
    decreases |marks| - i
  {
    if i == |marks| then []
    else (if i in used then [] else [Cell(ToRange(ts, marks[i]), FalsePositive, None)]) + FreeCells(ts, marks, used, i + 1)
  }

  function CellKey(c: Cell): (int, int) { (c.range.start, 0) }

  function Weight2(p: Penalty): nat { match p case Off => 0 case HalfMark => 1 case FullMark => 2 }

  /** Found marks less the penalty, doubled and never below zero. */
  function Earned2(exact: nat, fp: nat, p: Penalty): nat {
    if 2 * exact >= Weight2(p) * fp then 2 * exact - Weight2(p) * fp else 0
  }

  function GradeOf(ts: seq<Token>, key: seq<Run>, marks: seq<Run>, penalty: Penalty): Grade {
    var e, n := ExactPass(key, marks), NearPass(key, marks);
    var used := TakenBy(e) + TakenBy(n);
    var free := FreeCells(ts, marks, used, 0);
    var exact, near := CountTaken(e), CountTaken(n);
    Grade(exact, near, CountMissed(e, n, 0), |free|, |key|,
          Earned2(exact, |free|, penalty),
          SortBy(PassCells(ts, key, marks, true, e, 0) + PassCells(ts, key, marks, false, n, 0) + free, CellKey))
  }

  /** The score, and the pass decided in whole numbers. */
  function ScoreOf(g: Grade): real { if g.total == 0 then 0.0 else g.earned2 as real / (2 * g.total) as real }

  predicate Passed(g: Grade, threshold: int) { g.total > 0 && g.earned2 * 100 >= threshold * (2 * g.total) }

  // ----- The loops of the source -----

  method RunPass(ts: seq<Token>, key: seq<Run>, marks: seq<Run>, skip: set<nat>, used0: set<nat>, exactly: bool)
    returns (pass: seq<Option<nat>>, used: set<nat>, cells: seq<Cell>)
    ensures pass == Pass(key, marks, skip, used0, exactly, 0)
    ensures used == used0 + TakenBy(pass)
    ensures cells == PassCells(ts, key, marks, exactly, pass, 0)
  {
    pass, used, cells := [], used0, [];
    ghost var all := Pass(key, marks, skip, used0, exactly, 0);
    ghost var drawn := PassCells(ts, key, marks, exactly, all, 0);
    for ki := 0 to |key|
      invariant |pass| == ki && all == pass + Pass(key, marks, skip, used, exactly, ki)
      invariant used == used0 + TakenBy(pass)
      invariant drawn == cells + PassCells(ts, key, marks, exactly, all, ki)
    {
      var m := if ki in skip then None else FirstFree(key[ki], marks, used, exactly, 0);
      PassStep(all, pass, m, Pass(key, marks, skip, used + Taken(m), exactly, ki + 1));
      TakenSnoc(pass, m);
      var cell := CellFor(ts, key[ki], marks, exactly, m);
      CellStep(drawn, cells, cell, PassCells(ts, key, marks, exactly, all, ki + 1));
      pass, used, cells := pass + [m], used + Taken(m), cells + cell;
    }
  }

  lemma CellStep(all: seq<Cell>, cells: seq<Cell>, cell: seq<Cell>, rest: seq<Cell>)
    requires all == cells + (cell + rest)
    ensures all == (cells + cell) + rest
  {}

  lemma PassStep(all: seq<Option<nat>>, pass: seq<Option<nat>>, m: Option<nat>, rest: seq<Option<nat>>)
    requires all == pass + ([m] + rest)
    ensures all == (pass + [m]) + rest && all[|pass|] == m
  {}

  lemma {:induction false} TakenSnoc(pass: seq<Option<nat>>, m: Option<nat>)
    ensures TakenBy(pass + [m]) == TakenBy(pass) + Taken(m)
  {
    if pass != [] {
      assert (pass + [m])[1..] == pass[1..] + [m];
      TakenSnoc(pass[1..], m);
    }
  }

  method FreeMarks(ts: seq<Token>, marks: seq<Run>, used: set<nat>) returns (fp: nat, cells: seq<Cell>)
    ensures cells == FreeCells(ts, marks, used, 0) && fp == |cells|
  {
    fp, cells := 0, [];
    ghost var all := FreeCells(ts, marks, used, 0);
    for i := 0 to |marks|
      invariant all == cells + FreeCells(ts, marks, used, i) && fp == |cells|
    {
      if i !in used {
        fp := fp + 1;
        cells := cells + [Cell(ToRange(ts, marks[i]), FalsePositive, None)];
      }
    }
  }

  method CountPass(pass: seq<Option<nat>>) returns (n: nat)
    ensures n == CountTaken(pass)
  {
    n := 0;
    assert pass[0..] == pass;
    for k := 0 to |pass|
      invariant n + CountTaken(pass[k..]) == CountTaken(pass)
    {
      assert pass[k..][0] == pass[k] && pass[k..][1..] == pass[k + 1..];
      if pass[k].Some? { n := n + 1; }
    }
  }

  method GradeMarks(ts: seq<Token>, key: seq<Run>, marks: seq<Run>, penalty: Penalty) returns (g: Grade)
    ensures g == GradeOf(ts, key, marks, penalty)
  {
    var e, usedExact, exactCells := RunPass(ts, key, marks, {}, {}, true);
    assert usedExact == TakenBy(e);
    var n, used, nearCells := RunPass(ts, key, marks, Served(e), usedExact, false);
    assert used == TakenBy(e) + TakenBy(n);
    var fp, free := FreeMarks(ts, marks, used);
    var exact := CountPass(e);
    var near := CountPass(n);
    var miss := 0;
    for k := 0 to |key|
      invariant miss + CountMissed(e, n, k) == CountMissed(e, n, 0)
    {
      if e[k].None? && n[k].None? { miss := miss + 1; }
    }
    g := Grade(exact, near, miss, fp, |key|,
               Earned2(exact, fp, penalty), SortBy(exactCells + nearCells + free, CellKey));
  }
}
