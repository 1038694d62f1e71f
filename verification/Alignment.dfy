/** Word-level alignment of two sequences under an arbitrary relation.

    Both `error-correction/engine.ts` and `dictation/diff.ts` fill the same table and walk
    it back in the same way; only the relation differs.  The relation is a parameter here and
    nothing is assumed about it: one-letter tolerance is neither transitive nor symmetric in
    general. */
module Alignment {
  import opened Ratios

  /** One step of the walk.  `ai`, `bi` are the cursors before the step.
      The error-correction engine calls the cases eq / extra / missing, the dictation diff
      eq / del / ins. */
  datatype Op = Both(ai: nat, bi: nat) | OnlyA(ai: nat, bi: nat) | OnlyB(ai: nat, bi: nat)

  function Max(x: nat, y: nat): nat { if x >= y then x else y }

  // ----- The table -----

  /** The value of table cell (i, j). */
  function Lcs<A, B>(rel: (A, B) -> bool, a: seq<A>, b: seq<B>, i: nat, j: nat): nat
    requires i <= |a| && j <= |b|
    decreases |a| - i + |b| - j
  {
    if i == |a| || j == |b| then 0
    else if rel(a[i], b[j]) then 1 + Lcs(rel, a, b, i + 1, j + 1)
    else Max(Lcs(rel, a, b, i + 1, j), Lcs(rel, a, b, i, j + 1))
  }

  function NextA(op: Op): nat { if op.OnlyB? then op.ai else op.ai + 1 }
  function NextB(op: Op): nat { if op.OnlyA? then op.bi else op.bi + 1 }

  /** The step taken at cell (i, j): a step in `a` wins ties. */
  function StepAt<A, B>(rel: (A, B) -> bool, a: seq<A>, b: seq<B>, i: nat, j: nat): Op
    requires i < |a| && j < |b|
  {
    if rel(a[i], b[j]) then Both(i, j)
    else if Lcs(rel, a, b, i + 1, j) >= Lcs(rel, a, b, i, j + 1) then OnlyA(i, j)
    else OnlyB(i, j)
  }

  /** The walk from cell (i, j) to the end of both sides. */
  function Walk<A, B>(rel: (A, B) -> bool, a: seq<A>, b: seq<B>, i: nat, j: nat): seq<Op>
    requires i <= |a| && j <= |b|
    decreases |a| - i + |b| - j
  {
    if i < |a| && j < |b| then
      var op := StepAt(rel, a, b, i, j);
      [op] + Walk(rel, a, b, NextA(op), NextB(op))
    else if i < |a| then [OnlyA(i, j)] + Walk(rel, a, b, i + 1, j)
    else if j < |b| then [OnlyB(i, j)] + Walk(rel, a, b, i, j + 1)
    else []
  }

  ghost predicate RowDone<A, B>(rel: (A, B) -> bool, a: seq<A>, b: seq<B>, dp: array2<nat>, i: nat, from: nat)
    requires dp.Length0 == |a| + 1 && dp.Length1 == |b| + 1 && i <= |a|
    reads dp
  {
    forall c {:trigger dp[i, c]} :: from <= c <= |b| ==> dp[i, c] == Lcs(rel, a, b, i, c)
  }

  /** Fills row `i` from the row below it. */
  method FillRow<A, B>(rel: (A, B) -> bool, a: seq<A>, b: seq<B>, dp: array2<nat>, i: nat)
    requires dp.Length0 == |a| + 1 && dp.Length1 == |b| + 1 && i < |a|
    requires RowDone(rel, a, b, dp, i + 1, 0) && dp[i, |b|] == 0
    modifies dp
    ensures RowDone(rel, a, b, dp, i, 0)
    ensures forall r, c :: 0 <= r <= |a| && 0 <= c <= |b| && r != i ==> dp[r, c] == old(dp[r, c])
  {
    var j := |b|;
    while j > 0
      invariant 0 <= j <= |b|
      invariant RowDone(rel, a, b, dp, i, j)
      invariant forall r, c :: 0 <= r <= |a| && 0 <= c <= |b| && r != i ==> dp[r, c] == old(dp[r, c])
    {
      j := j - 1;
      assert old(dp[i + 1, j]) == Lcs(rel, a, b, i + 1, j);
      assert old(dp[i + 1, j + 1]) == Lcs(rel, a, b, i + 1, j + 1);
      dp[i, j] := if rel(a[i], b[j]) then dp[i + 1, j + 1] + 1
                  else Max(dp[i + 1, j], dp[i, j + 1]);
    }
  }

  method Align<A, B>(rel: (A, B) -> bool, a: seq<A>, b: seq<B>)
    returns (ops: seq<Op>, lcs: nat)
    ensures ops == Walk(rel, a, b, 0, 0)
    ensures lcs == Lcs(rel, a, b, 0, 0)
  {
    var n, m := |a|, |b|;
    var dp := new nat[n + 1, m + 1]((_, _) => 0);
    var i := n;
    while i > 0
      invariant 0 <= i <= n
      invariant forall r :: i <= r <= n ==> RowDone(rel, a, b, dp, r, 0)
      invariant forall r :: 0 <= r < i ==> dp[r, m] == 0
    {
      i := i - 1;
      label Before:
      FillRow(rel, a, b, dp, i);
      forall r | i < r <= n ensures RowDone(rel, a, b, dp, r, 0) {
        assert old@Before(RowDone(rel, a, b, dp, r, 0));
      }
    }
    assert RowDone(rel, a, b, dp, 0, 0);
    lcs := dp[0, 0];
    ops := Backtrace(rel, a, b, dp);
  }

  method Backtrace<A, B>(rel: (A, B) -> bool, a: seq<A>, b: seq<B>, dp: array2<nat>) returns (ops: seq<Op>)
    requires dp.Length0 == |a| + 1 && dp.Length1 == |b| + 1
    requires forall r :: 0 <= r <= |a| ==> RowDone(rel, a, b, dp, r, 0)
    ensures ops == Walk(rel, a, b, 0, 0)
  {
    ops := [];
    var i, j := 0, 0;
    ghost var all := Walk(rel, a, b, 0, 0);
    while i < |a| && j < |b|
      invariant 0 <= i <= |a| && 0 <= j <= |b|
      invariant all == ops + Walk(rel, a, b, i, j)
      decreases |a| - i + |b| - j
    {
      assert RowDone(rel, a, b, dp, i, 0) && RowDone(rel, a, b, dp, i + 1, 0);
      var below, right := dp[i + 1, j], dp[i, j + 1];
      var op := if rel(a[i], b[j]) then Both(i, j) else if below >= right then OnlyA(i, j) else OnlyB(i, j);
      assert op == StepAt(rel, a, b, i, j);
      AppendStep(all, ops, op, Walk(rel, a, b, NextA(op), NextB(op)));
      ops := ops + [op];
      i, j := NextA(op), NextB(op);
    }
    while i < |a|
      invariant 0 <= i <= |a| && 0 <= j <= |b| && (i < |a| ==> j == |b|)
      invariant all == ops + Walk(rel, a, b, i, j)
    {
      AppendStep(all, ops, OnlyA(i, |b|), Walk(rel, a, b, i + 1, j));
      ops := ops + [OnlyA(i, |b|)];
      i := i + 1;
    }
    while j < |b|
      invariant i == |a| && 0 <= j <= |b|
      invariant all == ops + Walk(rel, a, b, i, j)
    {
      AppendStep(all, ops, OnlyB(|a|, j), Walk(rel, a, b, i, j + 1));
      ops := ops + [OnlyB(|a|, j)];
      j := j + 1;
    }
  }

  lemma AppendStep(all: seq<Op>, ops: seq<Op>, op: Op, rest: seq<Op>)
    requires all == ops + ([op] + rest)
    ensures all == (ops + [op]) + rest
  {}

  // ----- Optimality of the table -----

  /** `m` pairs positions of `a` and `b` from (i, j) on, in increasing order on both sides,
      every pair related. */
  ghost predicate Matching<A, B>(rel: (A, B) -> bool, a: seq<A>, b: seq<B>,
                                 i: nat, j: nat, m: seq<(nat, nat)>)
  {
    && (forall k | 0 <= k < |m| ::
          i <= m[k].0 < |a| && j <= m[k].1 < |b| && rel(a[m[k].0], b[m[k].1]))
    && (forall k, l | 0 <= k < l < |m| :: m[k].0 < m[l].0 && m[k].1 < m[l].1)
  }

  /** No order-preserving matching is larger than the table's value, for any relation. */
  lemma {:induction false} LcsIsUpperBound<A, B>(rel: (A, B) -> bool, a: seq<A>, b: seq<B>,
                                                 i: nat, j: nat, m: seq<(nat, nat)>)
    requires i <= |a| && j <= |b| && Matching(rel, a, b, i, j, m)
    ensures |m| <= Lcs(rel, a, b, i, j)
    decreases |a| - i + |b| - j
  {
    if m != [] {
      assert i <= m[0].0 < |a| && j <= m[0].1 < |b|;
      assert forall k | 0 <= k < |m| :: m[0].0 <= m[k].0 && m[0].1 <= m[k].1;
      if rel(a[i], b[j]) {
        // The first pair is the only one that can use position i or position j.
        assert forall k | 1 <= k < |m| :: i < m[k].0 && j < m[k].1;
        LcsIsUpperBound(rel, a, b, i + 1, j + 1, m[1..]);
      } else if m[0].0 > i {
        LcsIsUpperBound(rel, a, b, i + 1, j, m);
      } else {
        LcsIsUpperBound(rel, a, b, i, j + 1, m);
      }
    }
  }

  // ----- What the walk spells -----

  /** `ops` leads from (i, j) to the end of both sides: every position of `a` from `i` on is
      consumed by exactly one Both or OnlyA, every position of `b` from `j` on by exactly one
      Both or OnlyB, in order; and every Both is a related pair. */
  ghost predicate Script<A, B>(rel: (A, B) -> bool, a: seq<A>, b: seq<B>,
                               ops: seq<Op>, i: nat, j: nat)
    decreases |ops|
  {
    if ops == [] then i == |a| && j == |b|
    else
      var op := ops[0];
      && op.ai == i && op.bi == j
      && (!op.OnlyB? ==> i < |a|) && (!op.OnlyA? ==> j < |b|)
      && (op.Both? ==> rel(a[i], b[j]))
      && Script(rel, a, b, ops[1..], NextA(op), NextB(op))
  }

  function Pairs(ops: seq<Op>): seq<(nat, nat)> {
    if ops == [] then []
    else (if ops[0].Both? then [(ops[0].ai, ops[0].bi)] else []) + Pairs(ops[1..])
  }

  /** The words of side A that `ops` accounts for, and those of side B. */
  function SpelledA<A>(a: seq<A>, ops: seq<Op>): seq<A>
    requires forall op | op in ops :: op.OnlyB? || op.ai < |a|
  {
    if ops == [] then []
    else (if ops[0].OnlyB? then [] else [a[ops[0].ai]]) + SpelledA(a, ops[1..])
  }

  function SpelledB<B>(b: seq<B>, ops: seq<Op>): seq<B>
    requires forall op | op in ops :: op.OnlyA? || op.bi < |b|
  {
    if ops == [] then []
    else (if ops[0].OnlyA? then [] else [b[ops[0].bi]]) + SpelledB(b, ops[1..])
  }

  lemma {:induction false} ScriptBounds<A, B>(rel: (A, B) -> bool, a: seq<A>, b: seq<B>,
                                              ops: seq<Op>, i: nat, j: nat)
    requires Script(rel, a, b, ops, i, j)
    ensures i <= |a| && j <= |b|
    ensures forall op | op in ops :: i <= op.ai <= |a| && j <= op.bi <= |b|
    ensures forall op | op in ops :: (op.OnlyB? || op.ai < |a|) && (op.OnlyA? || op.bi < |b|)
    decreases |ops|
  {
    if ops != [] {
      ScriptBounds(rel, a, b, ops[1..], NextA(ops[0]), NextB(ops[0]));
      assert forall op | op in ops :: op == ops[0] || op in ops[1..];
    }
  }

  /** The kept and dropped words spell side A, the kept and added words side B. */
  lemma {:induction false} ScriptSpells<A, B>(rel: (A, B) -> bool, a: seq<A>, b: seq<B>,
                                              ops: seq<Op>, i: nat, j: nat)
    requires Script(rel, a, b, ops, i, j)
    ensures i <= |a| && j <= |b|
    ensures forall op | op in ops :: (op.OnlyB? || op.ai < |a|) && (op.OnlyA? || op.bi < |b|)
    ensures SpelledA(a, ops) == a[i..] && SpelledB(b, ops) == b[j..]
    ensures 2 * |Pairs(ops)| + (|ops| - |Pairs(ops)|) == (|a| - i) + (|b| - j)
    decreases |ops|
  {
    ScriptBounds(rel, a, b, ops, i, j);
    if ops != [] {
      ScriptSpells(rel, a, b, ops[1..], NextA(ops[0]), NextB(ops[0]));
      if !ops[0].OnlyB? { assert a[i..] == [a[i]] + a[i + 1..]; }
      if !ops[0].OnlyA? { assert b[j..] == [b[j]] + b[j + 1..]; }
    }
  }

  lemma MatchingCons<A, B>(rel: (A, B) -> bool, a: seq<A>, b: seq<B>, i: nat, j: nat, m: seq<(nat, nat)>)
    requires i < |a| && j < |b| && rel(a[i], b[j]) && Matching(rel, a, b, i + 1, j + 1, m)
    ensures Matching(rel, a, b, i, j, [(i, j)] + m)
  {
    var p := [(i, j)] + m;
    forall k | 0 <= k < |p| ensures i <= p[k].0 < |a| && j <= p[k].1 < |b| && rel(a[p[k].0], b[p[k].1]) {
      if k > 0 { assert p[k] == m[k - 1]; }
    }
    forall k, l | 0 <= k < l < |p| ensures p[k].0 < p[l].0 && p[k].1 < p[l].1 {
      assert p[l] == m[l - 1];
      if k > 0 { assert p[k] == m[k - 1]; }
    }
  }

  lemma MatchingWeaken<A, B>(rel: (A, B) -> bool, a: seq<A>, b: seq<B>,
                             i: nat, j: nat, i': nat, j': nat, m: seq<(nat, nat)>)
    requires i <= i' && j <= j' && Matching(rel, a, b, i', j', m)
    ensures Matching(rel, a, b, i, j, m)
  {}

  lemma {:induction false} PairsMatch<A, B>(rel: (A, B) -> bool, a: seq<A>, b: seq<B>,
                                            ops: seq<Op>, i: nat, j: nat)
    requires Script(rel, a, b, ops, i, j)
    ensures Matching(rel, a, b, i, j, Pairs(ops))
    decreases |ops|
  {
    if ops != [] {
      var rest := Pairs(ops[1..]);
      PairsMatch(rel, a, b, ops[1..], NextA(ops[0]), NextB(ops[0]));
      if ops[0].Both? {
        assert Pairs(ops) == [(i, j)] + rest;
        MatchingCons(rel, a, b, i, j, rest);
      } else {
        assert Pairs(ops) == rest;
        MatchingWeaken(rel, a, b, i, j, NextA(ops[0]), NextB(ops[0]), rest);
      }
    }
  }

  /** The walk is a script and keeps exactly as many pairs as the table promises. */
  lemma {:induction false} WalkIsScript<A, B>(rel: (A, B) -> bool, a: seq<A>, b: seq<B>, i: nat, j: nat)
    requires i <= |a| && j <= |b|
    ensures Script(rel, a, b, Walk(rel, a, b, i, j), i, j)
    ensures |Pairs(Walk(rel, a, b, i, j))| == Lcs(rel, a, b, i, j)
    decreases |a| - i + |b| - j
  {
    var ops := Walk(rel, a, b, i, j);
    if ops != [] {
      var op := ops[0];
      assert op.ai == i && op.bi == j && ops[1..] == Walk(rel, a, b, NextA(op), NextB(op));
      WalkIsScript(rel, a, b, NextA(op), NextB(op));
    }
  }

  /** `align` is optimal for every relation: its walk is a script, and no script of the same two
      sequences keeps more pairs or needs fewer edits. */
  lemma AlignIsOptimal<A, B>(rel: (A, B) -> bool, a: seq<A>, b: seq<B>, other: seq<Op>)
    requires Script(rel, a, b, other, 0, 0)
    ensures var ops := Walk(rel, a, b, 0, 0);
            && Script(rel, a, b, ops, 0, 0)
            && |Pairs(ops)| == Lcs(rel, a, b, 0, 0)
            && |Pairs(other)| <= |Pairs(ops)|
            && |ops| - |Pairs(ops)| <= |other| - |Pairs(other)|
  {
    var ops := Walk(rel, a, b, 0, 0);
    WalkIsScript(rel, a, b, 0, 0);
    PairsMatch(rel, a, b, other, 0, 0);
    LcsIsUpperBound(rel, a, b, 0, 0, Pairs(other));
    ScriptSpells(rel, a, b, ops, 0, 0);
    ScriptSpells(rel, a, b, other, 0, 0);
  }

  /** The word of side A can be dropped without losing a pair. */
  ghost predicate DropsFreely<A(!new), B(!new)>(rel: (A, B) -> bool, a: seq<A>, b: seq<B>, i: nat, j: nat) {
    exists best | Matching(rel, a, b, i + 1, j, best) :: forall m | Matching(rel, a, b, i, j, m) :: |m| <= |best|
  }

  /** A largest matching from cell (i, j) on. */
  lemma LargestMatching<A, B>(rel: (A, B) -> bool, a: seq<A>, b: seq<B>, i: nat, j: nat) returns (m: seq<(nat, nat)>)
    requires i <= |a| && j <= |b|
    ensures Matching(rel, a, b, i, j, m) && |m| == Lcs(rel, a, b, i, j)
  {
    WalkIsScript(rel, a, b, i, j);
    m := Pairs(Walk(rel, a, b, i, j));
    PairsMatch(rel, a, b, Walk(rel, a, b, i, j), i, j);
  }

  lemma DropsIs<A(!new), B(!new)>(rel: (A, B) -> bool, a: seq<A>, b: seq<B>, i: nat, j: nat)
    requires i < |a| && j <= |b|
    ensures DropsFreely(rel, a, b, i, j) <==> Lcs(rel, a, b, i + 1, j) >= Lcs(rel, a, b, i, j)
  {
    var least := LargestMatching(rel, a, b, i + 1, j);
    var most := LargestMatching(rel, a, b, i, j);
    if Lcs(rel, a, b, i + 1, j) >= Lcs(rel, a, b, i, j) {
      forall m | Matching(rel, a, b, i, j, m) ensures |m| <= |least| { LcsIsUpperBound(rel, a, b, i, j, m); }
    }
    if DropsFreely(rel, a, b, i, j) {
      var best :| Matching(rel, a, b, i + 1, j, best) && forall m | Matching(rel, a, b, i, j, m) :: |m| <= |best|;
      LcsIsUpperBound(rel, a, b, i + 1, j, best);
      assert |most| <= |best|;
    }
  }

  lemma {:induction false} WalkSteps<A, B>(rel: (A, B) -> bool, a: seq<A>, b: seq<B>, i: nat, j: nat, op: Op)
    requires i <= |a| && j <= |b| && op in Walk(rel, a, b, i, j) && op.ai < |a| && op.bi < |b|
    ensures op == StepAt(rel, a, b, op.ai, op.bi)
    decreases |a| - i + |b| - j
  {
    var ops := Walk(rel, a, b, i, j);
    var head := ops[0];
    if op != head {
      assert ops == [head] + Walk(rel, a, b, NextA(head), NextB(head));
      WalkSteps(rel, a, b, NextA(head), NextB(head), op);
    }
  }

  /** While both sides have words left the walk keeps a related pair, and otherwise drops the word of
      side A whenever no pair is lost with it: of all the best scripts it is the one that turns to
      side A first. */
  lemma SideAFirst<A(!new), B(!new)>(rel: (A, B) -> bool, a: seq<A>, b: seq<B>, op: Op)
    requires op in Walk(rel, a, b, 0, 0) && op.ai < |a| && op.bi < |b|
    ensures op.Both? <==> rel(a[op.ai], b[op.bi])
    ensures op.OnlyA? <==> !rel(a[op.ai], b[op.bi]) && DropsFreely(rel, a, b, op.ai, op.bi)
  {
    WalkSteps(rel, a, b, 0, 0, op);
    DropsIs(rel, a, b, op.ai, op.bi);
  }

  /** A coarser relation never keeps fewer pairs. */
  lemma LcsMonotone<A, B>(fine: (A, B) -> bool, coarse: (A, B) -> bool, a: seq<A>, b: seq<B>)
    requires forall x, y | x in a && y in b && fine(x, y) :: coarse(x, y)
    ensures Lcs(fine, a, b, 0, 0) <= Lcs(coarse, a, b, 0, 0)
  {
    WalkIsScript(fine, a, b, 0, 0);
    PairsMatch(fine, a, b, Walk(fine, a, b, 0, 0), 0, 0);
    var m := Pairs(Walk(fine, a, b, 0, 0));
    assert Matching(coarse, a, b, 0, 0, m);
    LcsIsUpperBound(coarse, a, b, 0, 0, m);
  }

  // ----- Similarity -----

  /** `2·LCS / (|a| + |b|)`, and 0 for two empty sides. */
  function Sim<A, B>(rel: (A, B) -> bool, a: seq<A>, b: seq<B>): real {
    if |a| + |b| > 0 then (2 * Lcs(rel, a, b, 0, 0)) as real / (|a| + |b|) as real else 0.0
  }

  method Similarity<A, B>(rel: (A, B) -> bool, a: seq<A>, b: seq<B>) returns (sim: real)
    ensures sim == Sim(rel, a, b)
  {
    var ops, lcs := Align(rel, a, b);
    sim := if |a| + |b| > 0 then (2 * lcs) as real / (|a| + |b|) as real else 0.0;
  }

  /** The similarity lies in [0, 1], and is 1 exactly when there is something to compare and the
      walk needs no edit. */
  lemma SimRange<A, B>(rel: (A, B) -> bool, a: seq<A>, b: seq<B>)
    ensures 0.0 <= Sim(rel, a, b) <= 1.0
    ensures Sim(rel, a, b) == 1.0 <==>
            |a| + |b| > 0 && |Pairs(Walk(rel, a, b, 0, 0))| == |Walk(rel, a, b, 0, 0)|
  {
    EditsLeft(rel, a, b);
    if |a| + |b| > 0 {
      UnitRatio(2 * Lcs(rel, a, b, 0, 0), |a| + |b|);
    }
  }

  /** Every word is half of a kept pair or an edit of its own. */
  lemma EditsLeft<A, B>(rel: (A, B) -> bool, a: seq<A>, b: seq<B>)
    ensures var ops := Walk(rel, a, b, 0, 0);
            2 * Lcs(rel, a, b, 0, 0) + (|ops| - |Pairs(ops)|) == |a| + |b| && |Pairs(ops)| <= |ops|
  {
    var ops := Walk(rel, a, b, 0, 0);
    WalkIsScript(rel, a, b, 0, 0);
    ScriptSpells(rel, a, b, ops, 0, 0);
    PairsAtMost(ops);
  }

  lemma {:induction false} PairsAtMost(ops: seq<Op>)
    ensures |Pairs(ops)| <= |ops|
  {
    if ops != [] { PairsAtMost(ops[1..]); }
  }
}
