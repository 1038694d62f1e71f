/** The focus words a check got wrong, read off the corrected line. */
module FocusMisses {
  import opened Text
  import opened Sorting
  import opened Classify
  import opened DictationDiff
  import opened DiffAccounting
  import F = FocusReanchor

  function Between(i: nat, n: nat): (s: set<nat>)
    ensures forall k :: k in s <==> i <= k < i + n
  {
    if n == 0 then {} else Between(i, n - 1) + {i + n - 1}
  }

  /** The expected words a substitution or an omission marks as missed focus words. */
  function MissedBy(op: DiffOp): set<nat> {
    match op
    case SubOp(i, n, _, _, _, _, _, focus) => if focus then Between(i, n) else {}
    case DelOp(i, _, _, focus) => if focus then {i} else {}
    case EqOp(_, _, _) => {}
    case InsOp(_, _) => {}
  }

  function MissedIn(ops: seq<DiffOp>): set<nat> {
    if ops == [] then {} else MissedBy(ops[0]) + MissedIn(ops[1..])
  }

  method CollectMissed(ops: seq<DiffOp>) returns (missed: set<nat>)
    ensures missed == MissedIn(ops)
  {
    missed := {};
    assert ops[0..] == ops;
    for x := 0 to |ops|
      invariant MissedIn(ops) == missed + MissedIn(ops[x..])
    {
      assert ops[x..][0] == ops[x] && ops[x..][1..] == ops[x + 1..];
      ghost var before := missed;
      match ops[x] {
        case SubOp(i, n, _, _, _, _, _, focus) =>
          if focus {
            for k := 0 to n
              invariant missed == before + Between(i, k)
            {
              missed := missed + {i + k};
            }
          }
        case DelOp(i, _, _, focus) => if focus { missed := missed + {i}; }
        case _ =>
      }
      assert missed == before + MissedBy(ops[x]);
    }
  }

  datatype Miss = Miss(id: string, word: string, why: string)

  function OnlyMissed(focus: seq<F.FocusWord>, missed: set<nat>): seq<F.FocusWord> {
    if focus == [] then []
    else (if focus[0].wordIndex in missed then [focus[0]] else []) + OnlyMissed(focus[1..], missed)
  }

  function MissOf(f: F.FocusWord, words: seq<string>): Miss {
    Miss(f.id, if f.wordIndex < |words| then words[f.wordIndex] else "", Trim(f.why))
  }

  /** The missed focus words in sentence order. */
  function Misses(focus: seq<F.FocusWord>, words: seq<string>, ops: seq<DiffOp>): seq<Miss> {
    var missed := SortBy(OnlyMissed(focus, MissedIn(ops)), F.FocusKey);
    seq(|missed|, k requires 0 <= k < |missed| => MissOf(missed[k], words))
  }

  /** The expected words the learner wrote as they should be. */
  function KeptIn(ops: seq<DiffOp>): set<nat> {
    if ops == [] then {} else (if ops[0].EqOp? then {ops[0].i} else {}) + KeptIn(ops[1..])
  }

  /** Of the words a corrected line stands for, a focus word is missed exactly when it was not
      kept. */
  lemma {:induction false} MissedOrKept(r: Rules, ops: seq<DiffOp>, E: seq<DcToken>, from: nat, to: nat, k: nat)
    requires Tile(r, ops, E, from, to)
    ensures from <= to
    ensures k in KeptIn(ops) || k in MissedIn(ops) ==> from <= k < to
    ensures from <= k < to && k in r.focus ==> (k in MissedIn(ops) <==> k !in KeptIn(ops))
    decreases |ops|
  {
    if ops != [] { MissedOrKept(r, ops[1..], E, from + Width(ops[0]), to, k); }
  }

  lemma {:induction false} OnlyMissedIs(focus: seq<F.FocusWord>, missed: set<nat>, f: F.FocusWord)
    ensures f in OnlyMissed(focus, missed) <==> f in focus && f.wordIndex in missed
  {
    if focus != [] {
      OnlyMissedIs(focus[1..], missed, f);
      assert focus == [focus[0]] + focus[1..];
    }
  }

  /** A focus word is named after a check exactly when the learner did not write it as it should
      be — whatever word it was aligned with, and inside a boundary error as well. */
  lemma FocusVerdict(r: Rules, E: seq<DcToken>, T: seq<DcToken>, focus: seq<F.FocusWord>, f: F.FocusWord)
    requires Numbered(E) && CleanWords(T) && f in focus && f.wordIndex < |E| && f.wordIndex in r.focus
    ensures var ops := DiffOps(r, E, T);
            && (f in OnlyMissed(focus, MissedIn(ops)) <==> f.wordIndex !in KeptIn(ops))
            && (f in OnlyMissed(focus, MissedIn(ops)) ==> Miss(f.id, E[f.wordIndex].w, Trim(f.why)) in Misses(focus, Written(E), ops))
            && |Misses(focus, Written(E), ops)| == |OnlyMissed(focus, MissedIn(ops))|
  {
    var ops := DiffOps(r, E, T);
    var missed := OnlyMissed(focus, MissedIn(ops));
    DiffLosesNothing(r, E, T);
    MissedOrKept(r, ops, E, 0, |E|, f.wordIndex);
    OnlyMissedIs(focus, MissedIn(ops), f);
    SortByIs(missed, F.FocusKey);
    if f in missed { MissShown(focus, Written(E), ops, f); }
  }

  lemma MissShown(focus: seq<F.FocusWord>, words: seq<string>, ops: seq<DiffOp>, f: F.FocusWord)
    requires f in OnlyMissed(focus, MissedIn(ops)) && f.wordIndex < |words|
    ensures Miss(f.id, words[f.wordIndex], Trim(f.why)) in Misses(focus, words, ops)
  {
    var sorted := SortBy(OnlyMissed(focus, MissedIn(ops)), F.FocusKey);
    SortByIs(OnlyMissed(focus, MissedIn(ops)), F.FocusKey);
    var k :| 0 <= k < |sorted| && sorted[k] == f;
    assert Misses(focus, words, ops)[k] == MissOf(f, words);
  }
}
