/** What every run of table checks keeps, and what the bank's forms are worth. */
module TableRuns {
  import opened Options
  import opened Text
  import opened Tokens
  import opened Sorting
  import opened InflectionTable
  import opened Bank
  import opened TableGrading

  // ----- Addressing a cell -----

  function ParseCellKey(key: string): Option<(string, string)> {
    var at := IndexOf(key, ':', 0);
    if at == 0 || at >= |key| - 1 then None else Some((key[..at], key[at + 1..]))
  }

  /** The parser undoes the printer. */
  lemma CellKeyRoundTrip(rowId: string, slotId: string)
    requires rowId != "" && ':' !in rowId && slotId != ""
    ensures ParseCellKey(CellKey(rowId, slotId)) == Some((rowId, slotId))
  {
    var key := CellKey(rowId, slotId);
    assert key[|rowId|] == ':';
    assert forall t | 0 <= t < |rowId| :: key[t] == rowId[t];
    assert IndexOf(key, ':', 0) == |rowId|;
    assert key[..|rowId|] == rowId && key[|rowId| + 1..] == slotId;
  }

  /** An address is a row id without a colon and a slot id, neither of them empty; nothing else parses. */
  lemma ParseIs(key: string, rowId: string, slotId: string)
    ensures ParseCellKey(key) == Some((rowId, slotId)) <==>
              rowId != "" && ':' !in rowId && slotId != "" && key == rowId + ":" + slotId
  {
    var at := IndexOf(key, ':', 0);
    if ParseCellKey(key).Some? {
      assert key == key[..at] + ":" + key[at + 1..];
      assert forall c | c in key[..at] :: c != ':';
    }
    if rowId != "" && ':' !in rowId && slotId != "" && key == rowId + ":" + slotId { CellKeyRoundTrip(rowId, slotId); }
  }

  lemma CellKeyInjective(r1: string, s1: string, r2: string, s2: string)
    requires ':' !in r1 && ':' !in r2 && CellKey(r1, s1) == CellKey(r2, s2)
    ensures r1 == r2 && s1 == s2
  {
    var a, b := CellKey(r1, s1), CellKey(r2, s2);
    assert a[|r1|] == ':' && b[|r2|] == ':';
    assert forall t | 0 <= t < |r1| :: a[t] == r1[t];
    assert forall t | 0 <= t < |r2| :: b[t] == r2[t];
    assert |r1| == |r2|;
    assert a[..|r1|] == r1 && b[..|r2|] == r2;
    assert a[|r1| + 1..] == s1 && b[|r2| + 1..] == s2;
  }

  ghost function AnyCell(): Asked -> bool { (c: Asked) => true }
  ghost function OtherKey(): (Asked, Asked) -> bool { (c: Asked, d: Asked) => c.key != d.key }

  /** No two graded cells share an address. */
  ghost predicate UniqueKeys(cells: seq<Asked>) { Chain(cells, AnyCell(), OtherKey()) }

  /** Row ids are distinct and have no colon in them, slot ids are distinct. */
  ghost predicate GoodIds(t: Table) {
    && (forall r | 0 <= r < |t.rows| :: ':' !in t.rows[r].id)
    && (forall r, q | 0 <= r < q < |t.rows| :: t.rows[r].id != t.rows[q].id)
    && (forall s, q | 0 <= s < q < |t.slots| :: t.slots[s].id != t.slots[q].id)
  }

  lemma {:induction false} RowKeysDiffer(t: Table, r: nat, n: nat)
    requires GoodIds(t) && r < |t.rows| && n <= |t.slots|
    ensures UniqueKeys(AskedIn(t.rows[r], t.slots, n))
  {
    if n > 0 {
      var row, slot := t.rows[r], t.slots[n - 1];
      RowKeysDiffer(t, r, n - 1);
      var before := AskedIn(row, t.slots, n - 1);
      if CellOf(row, slot.id).ask {
        forall c | c in before ensures c.key != CellKey(row.id, slot.id) {
          var s := AskedInFrom(row, t.slots, n - 1, c);
          if c.key == CellKey(row.id, slot.id) { CellKeyInjective(row.id, t.slots[s].id, row.id, slot.id); }
        }
        ChainConcat(before, [AskedOf(row, slot)], AnyCell(), OtherKey());
      } else {
        assert AskedIn(row, t.slots, n) == before;
      }
    }
  }

  lemma {:induction false} TableKeysDiffer(t: Table, n: nat)
    requires GoodIds(t) && n <= |t.rows|
    ensures UniqueKeys(AskedCells(t.rows, t.slots, n))
  {
    if n > 0 {
      var before, own := AskedCells(t.rows, t.slots, n - 1), AskedIn(t.rows[n - 1], t.slots, |t.slots|);
      TableKeysDiffer(t, n - 1);
      RowKeysDiffer(t, n - 1, |t.slots|);
      forall c, d | c in before && d in own ensures c.key != d.key {
        var r, s := AskedCellsFrom(t.rows, t.slots, n - 1, c);
        var q := AskedInFrom(t.rows[n - 1], t.slots, |t.slots|, d);
        if c.key == d.key { CellKeyInjective(t.rows[r].id, t.slots[s].id, t.rows[n - 1].id, t.slots[q].id); }
      }
      ChainConcat(before, own, AnyCell(), OtherKey());
    }
  }

  lemma {:induction false} GradedChain(cells: seq<Asked>)
    requires UniqueKeys(cells)
    ensures UniqueKeys(OnlyGraded(cells))
    decreases |cells|
  {
    if cells != [] {
      var c, rest := cells[0], cells[1..];
      assert cells == [c] + rest;
      ChainParts([c], rest, AnyCell(), OtherKey());
      GradedChain(rest);
      if IsGraded(c) {
        forall d | d in OnlyGraded(rest) ensures OtherKey()(c, d) { OnlyGradedIs(rest, d); }
        ChainConcat([c], OnlyGraded(rest), AnyCell(), OtherKey());
      } else {
        assert OnlyGraded(cells) == OnlyGraded(rest);
      }
    }
  }

  /** In a table whose ids are in order, every graded cell has an address of its own. */
  lemma KeysAreUnique(t: Table)
    requires GoodIds(t)
    ensures UniqueKeys(GradedCells(t))
  {
    TableKeysDiffer(t, |t.rows|);
    GradedChain(AskedCells(t.rows, t.slots, |t.rows|));
  }

  // ----- The score is the first check -----

  lemma {:induction false} FirstValuesAt(cells: seq<Outcome>, n: nat, k: nat)
    requires k < n <= |cells| && forall i, j | 0 <= i < j < |cells| :: cells[i].cell.key != cells[j].cell.key
    ensures cells[k].cell.key in FirstValues(cells, n) && FirstValues(cells, n)[cells[k].cell.key] == cells[k].firstValue
  {
    if k < n - 1 { FirstValuesAt(cells, n - 1, k); }
  }

  ghost predicate SameFirst(a: seq<Outcome>, b: seq<Outcome>) {
    |a| == |b| && forall k | 0 <= k < |a| ::
      a[k].cell == b[k].cell && a[k].firstValue == b[k].firstValue && a[k].firstOk == b[k].firstOk
  }

  lemma {:induction false} SameCounts(abc: Alphabet, a: seq<Outcome>, b: seq<Outcome>, n: nat)
    requires SameFirst(a, b) && n <= |a|
    ensures Count(a, FirstRight(), n) == Count(b, FirstRight(), n)
    ensures Count(a, FalsePositive(abc), n) == Count(b, FalsePositive(abc), n)
    ensures FirstValues(a, n) == FirstValues(b, n)
  {
    if n > 0 { SameCounts(abc, a, b, n - 1); }
  }

  /** The outcomes of these cells, with the first check read off the first form. */
  ghost predicate Covers(abc: Alphabet, cells: seq<Asked>, out: seq<Outcome>) {
    |out| == |cells| && forall k | 0 <= k < |cells| ::
      out[k].cell == cells[k] && out[k].firstOk == CellOk(abc, cells[k].cell, out[k].firstValue)
  }

  lemma {:induction false} CarriedFirst(delivery: Delivery, input: Input, before: seq<Outcome>)
    requires UniqueKeys(GradedCells(delivery.table)) && Covers(delivery.abc, GradedCells(delivery.table), before)
    requires input.first == Some(FirstValues(before, |before|))
    ensures SameFirst(GradeAll(delivery, input), before)
  {
    var cells := GradedCells(delivery.table);
    forall i, j | 0 <= i < j < |before| ensures before[i].cell.key != before[j].cell.key {
      ChainAt(cells, AnyCell(), OtherKey(), i, j);
    }
    forall k | 0 <= k < |before| ensures GradeAll(delivery, input)[k].firstValue == before[k].firstValue {
      FirstValuesAt(before, |before|, k);
    }
  }

  ghost predicate SameScore(a: Result, b: Result) {
    && SameFirst(a.cells, b.cells)
    && a.pct == b.pct && a.passed == b.passed && a.total == b.total && a.correct == b.correct
    && a.falsePositives == b.falsePositives && a.firstValues == b.firstValues
  }

  /** A check that is given the forms of an earlier one scores as that one did. */
  ghost predicate Carries(check: Input -> Result) {
    forall i: Input, j: Input | j.first == Some(check(i).firstValues) :: SameScore(check(j), check(i))
  }

  lemma {:induction false} CheckerCarries(delivery: Delivery)
    requires UniqueKeys(GradedCells(delivery.table))
    ensures Carries(Checker(delivery))
  {
    forall i: Input, j: Input | j.first == Some(CheckTable(delivery, i).firstValues)
      ensures SameScore(CheckTable(delivery, j), CheckTable(delivery, i))
    {
      var a, b := GradeAll(delivery, j), GradeAll(delivery, i);
      CarriedFirst(delivery, j, b);
      SameCounts(delivery.abc, a, b, |a|);
    }
  }

  lemma {:induction false} RunCarries(check: Input -> Result, run: seq<map<string, string>>, n: nat)
    requires Carries(check) && 0 < n <= |run|
    ensures SameScore(Run(check, run, n), Run(check, run, 1))
  {
    if n > 1 { RunCarries(check, run, n - 1); }
  }

  /** The score, the pass and the penalty of every later check are those of the first. */
  lemma ScoreIsFirstCheck(delivery: Delivery, run: seq<map<string, string>>, n: nat)
    requires UniqueKeys(GradedCells(delivery.table)) && 0 < n <= |run|
    ensures SameScore(Run(Checker(delivery), run, n), Run(Checker(delivery), run, 1))
  {
    CheckerCarries(delivery);
    RunCarries(Checker(delivery), run, n);
  }

  // ----- Locked cells -----

  lemma {:induction false} OkKeysAre(cells: seq<Outcome>, n: nat, key: string)
    requires n <= |cells|
    ensures key in OkKeys(cells, n) <==> exists k | 0 <= k < n :: cells[k].ok && cells[k].cell.key == key
  {
    if n > 0 { OkKeysAre(cells, n - 1, key); }
  }

  /** A locked cell is right, whatever is sent for it. */
  lemma LockedIsRight(delivery: Delivery, input: Input, c: Asked)
    requires Lawful(delivery.abc) && c in GradedCells(delivery.table) && c.key in input.locked
    ensures GradeCell(delivery, input, c).ok
  {
    OnlyGradedIs(AskedCells(delivery.table.rows, delivery.table.slots, |delivery.table.rows|), c);
    NormBlank(delivery.abc, c.cell.value);
    NormTrim(delivery.abc, c.cell.value);
    KeyIsOk(delivery.abc, c.cell, Trim(c.cell.value));
  }

  /** A check locks what it finds right, keeps what was locked, and finds locked cells right. */
  ghost predicate Locks(check: Input -> Result, cells: seq<Asked>) {
    forall i: Input ::
      && check(i).locked == i.locked + OkKeys(check(i).cells, |check(i).cells|)
      && |check(i).cells| == |cells|
      && forall k | 0 <= k < |cells| ::
           check(i).cells[k].cell == cells[k] && (cells[k].key in i.locked ==> check(i).cells[k].ok)
  }

  lemma CheckerLocks(delivery: Delivery)
    requires Lawful(delivery.abc)
    ensures Locks(Checker(delivery), GradedCells(delivery.table))
  {
    var cells := GradedCells(delivery.table);
    forall i: Input, k | 0 <= k < |cells| && cells[k].key in i.locked ensures GradeAll(delivery, i)[k].ok {
      LockedIsRight(delivery, i, cells[k]);
    }
  }

  /** What one check of a run does to the locked cells. */
  lemma CheckLocks(check: Input -> Result, cells: seq<Asked>, run: seq<map<string, string>>, n: nat, key: string)
    requires Locks(check, cells) && 0 < n <= |run|
    ensures var r := Run(check, run, n);
            var before := if n > 1 then Run(check, run, n - 1).locked else {};
            && |r.cells| == |cells| && (key in r.locked <==> key in before || FoundRight(r, key))
            && forall k | 0 <= k < |cells| :: r.cells[k].cell == cells[k] && (cells[k].key in before ==> r.cells[k].ok)
  {
    var r := Run(check, run, n);
    OkKeysAre(r.cells, |r.cells|, key);
    var i := if n > 1 then Input(run[n - 1], n, Run(check, run, n - 1).locked, Some(Run(check, run, n - 1).firstValues))
             else Input(run[0], 1, {}, None);
    assert r == check(i);
  }

  ghost predicate FoundRight(r: Result, key: string) {
    exists k | 0 <= k < |r.cells| :: r.cells[k].ok && r.cells[k].cell.key == key
  }

  /** Locked is what some check so far found right: it only grows. */
  lemma {:induction false} LockedIs(check: Input -> Result, cells: seq<Asked>, run: seq<map<string, string>>, n: nat, key: string)
    requires Locks(check, cells) && 0 < n <= |run|
    ensures key in Run(check, run, n).locked <==> exists i | 1 <= i <= n :: FoundRight(Run(check, run, i), key)
  {
    CheckLocks(check, cells, run, n, key);
    if n > 1 { LockedIs(check, cells, run, n - 1, key); }
  }

  lemma {:induction false} LockedGrows(check: Input -> Result, cells: seq<Asked>, run: seq<map<string, string>>, n: nat, m: nat, key: string)
    requires Locks(check, cells) && 0 < n <= m <= |run| && key in Run(check, run, n).locked
    ensures key in Run(check, run, m).locked
  {
    if n < m {
      LockedGrows(check, cells, run, n, m - 1, key);
      CheckLocks(check, cells, run, m, key);
    }
  }

  lemma RightIsLocked(check: Input -> Result, cells: seq<Asked>, run: seq<map<string, string>>, n: nat, k: nat)
    requires Locks(check, cells) && 0 < n <= |run| && k < |cells|
    ensures |Run(check, run, n).cells| == |cells|
    ensures Run(check, run, n).cells[k].ok ==> cells[k].key in Run(check, run, n).locked
  {
    CheckLocks(check, cells, run, n, cells[k].key);
    if Run(check, run, n).cells[k].ok { assert FoundRight(Run(check, run, n), cells[k].key); }
  }

  /** A cell found right once is right on every later check. */
  lemma RightStays(check: Input -> Result, cells: seq<Asked>, run: seq<map<string, string>>, n: nat, m: nat, k: nat)
    requires Locks(check, cells) && 0 < n <= m <= |run| && k < |cells|
    ensures |Run(check, run, n).cells| == |Run(check, run, m).cells| == |cells|
    ensures Run(check, run, n).cells[k].ok ==> Run(check, run, m).cells[k].ok
  {
    RightIsLocked(check, cells, run, n, k);
    CheckLocks(check, cells, run, m, cells[k].key);
    if n < m && Run(check, run, n).cells[k].ok { LockedGrows(check, cells, run, n, m - 1, cells[k].key); }
  }

  lemma {:induction false} CountGrows(a: seq<Outcome>, b: seq<Outcome>, n: nat)
    requires |a| == |b| && n <= |a| && forall k | 0 <= k < |a| && a[k].ok :: b[k].ok
    ensures Count(a, RightNow(), n) <= Count(b, RightNow(), n)
  {
    if n > 0 { CountGrows(a, b, n - 1); }
  }

  lemma {:induction false} RunIsCheck(check: Input -> Result, run: seq<map<string, string>>, n: nat)
    requires 0 < n <= |run|
    ensures exists i: Input :: i.attempt == n && Run(check, run, n) == check(i)
  {
    if n > 1 {
      var before := Run(check, run, n - 1);
      var i := Input(run[n - 1], n, before.locked, Some(before.firstValues));
      assert Run(check, run, n) == check(i);
    } else {
      var i := Input(run[0], 1, {}, None);
      assert Run(check, run, n) == check(i);
    }
  }

  /** Progress is never lost: every check finds right at least what the one before found, the
      locked cells only grow, and a closed table stays closed. */
  lemma ProgressStays(delivery: Delivery, run: seq<map<string, string>>, n: nat, m: nat)
    requires Lawful(delivery.abc) && 0 < n <= m <= |run|
    ensures var a, b := Run(Checker(delivery), run, n), Run(Checker(delivery), run, m);
            a.correctNow <= b.correctNow && a.locked <= b.locked && (a.closed ==> b.closed)
  {
    var check, cells := Checker(delivery), GradedCells(delivery.table);
    var a, b := Run(check, run, n), Run(check, run, m);
    CheckerLocks(delivery);
    forall k | 0 <= k < |cells| ensures |a.cells| == |b.cells| == |cells| && (a.cells[k].ok ==> b.cells[k].ok) {
      RightStays(check, cells, run, n, m, k);
    }
    forall key | key in a.locked ensures key in b.locked {
      LockedGrows(check, cells, run, n, m, key);
    }
    RunIsCheck(check, run, n);
    RunIsCheck(check, run, m);
    var i: Input :| i.attempt == n && a == check(i);
    var j: Input :| j.attempt == m && b == check(j);
    MoreRight(delivery, i, j);
  }

  lemma {:induction false} CountFull(cells: seq<Outcome>, n: nat)
    requires n <= |cells|
    ensures Count(cells, RightNow(), n) == n <==> forall k | 0 <= k < n :: cells[k].ok
  {
    if n > 0 { CountFull(cells, n - 1); }
  }

  /** A table is closed exactly when every graded cell is right, or the budget is spent. */
  lemma ClosedIs(delivery: Delivery, run: seq<map<string, string>>, n: nat)
    requires 0 < n <= |run|
    ensures var r := Run(Checker(delivery), run, n);
            r.closed <==> n >= MaxChecks(delivery) || (r.cells != [] && forall k | 0 <= k < |r.cells| :: r.cells[k].ok)
  {
    RunIsCheck(Checker(delivery), run, n);
    var i: Input :| i.attempt == n && Run(Checker(delivery), run, n) == Checker(delivery)(i);
    CountFull(GradeAll(delivery, i), |GradeAll(delivery, i)|);
  }

  lemma MoreRight(delivery: Delivery, i: Input, j: Input)
    requires i.attempt <= j.attempt
    requires forall k | 0 <= k < |GradedCells(delivery.table)| && GradeAll(delivery, i)[k].ok :: GradeAll(delivery, j)[k].ok
    ensures CheckTable(delivery, i).correctNow <= CheckTable(delivery, j).correctNow
    ensures CheckTable(delivery, i).closed ==> CheckTable(delivery, j).closed
  {
    CountGrows(GradeAll(delivery, i), GradeAll(delivery, j), |GradedCells(delivery.table)|);
  }

  // ----- What the bank's forms are worth -----

  /** Every graded cell is answered with a form the bank offers. */
  ghost predicate AnsweredFromBank(delivery: Delivery, answers: map<string, string>) {
    forall c | c in GradedCells(delivery.table) ::
      c.key in answers && InBank(delivery.abc, delivery.bank, answers[c.key])
  }

  /** The cells whose form does not belong to them: a distractor, or the key of another cell. */
  function Misplaced(delivery: Delivery, answers: map<string, string>): Asked -> bool {
    (c: Asked) => c.key in answers && !CellOk(delivery.abc, c.cell, answers[c.key])
  }

  lemma OfferedIsNotBlank(abc: Alphabet, t: Table, spell: Asked -> seq<string>, form: string)
    requires Lawful(abc) && InBank(abc, BankForms(abc, t, spell), form)
    ensures Norm(abc, form) != ""
  {
    BankIs(abc, t, spell);
  }

  /** A form the bank offers reaches the cell as it was sent. */
  lemma OfferedCounts(delivery: Delivery, answers: map<string, string>, c: Asked)
    requires c.key in answers && InBank(delivery.abc, delivery.bank, answers[c.key])
    ensures var o := GradeCell(delivery, Input(answers, 1, {}, None), c);
            o.firstOk == CellOk(delivery.abc, c.cell, answers[c.key]) && Norm(delivery.abc, o.firstValue) == Norm(delivery.abc, answers[c.key])
  {
    var sent := Trim(answers[c.key]);
    NormTrim(delivery.abc, answers[c.key]);
    CellOkIs(delivery.abc, c.cell, sent);
    CellOkIs(delivery.abc, c.cell, answers[c.key]);
    assert InBank(delivery.abc, delivery.bank, sent);
  }

  lemma {:induction false} CountsSplit(abc: Alphabet, out: seq<Outcome>, cells: seq<Asked>, wrong: Asked -> bool, n: nat)
    requires n <= |out| == |cells|
    requires forall k | 0 <= k < |out| :: out[k].firstOk == !wrong(cells[k]) && Norm(abc, out[k].firstValue) != ""
    ensures Count(out, FalsePositive(abc), n) == Count(cells, wrong, n)
    ensures Count(out, FirstRight(), n) == n - Count(cells, wrong, n)
  {
    if n > 0 { CountsSplit(abc, out, cells, wrong, n - 1); }
  }

  /** Answering from the bank, every form in a cell it does not belong to is a false positive: it is a
      wrong cell, and costs a right one besides. */
  lemma BankScore(delivery: Delivery, spell: Asked -> seq<string>, answers: map<string, string>)
    requires Lawful(delivery.abc) && delivery.table.bankMode
    requires delivery.bank == BankForms(delivery.abc, delivery.table, spell) && AnsweredFromBank(delivery, answers)
    ensures var cells := GradedCells(delivery.table);
            Penalised(Run(Checker(delivery), [answers], 1), Count(cells, Misplaced(delivery, answers), |cells|))
  {
    BankOutcomes(delivery, spell, answers);
    PenaltyIs(delivery, Input(answers, 1, {}, None), Misplaced(delivery, answers));
  }

  /** A distractor belongs to no cell, wherever it is placed. */
  lemma DistractorsAreMisplaced(delivery: Delivery, spell: Asked -> seq<string>, answers: map<string, string>, c: Asked)
    requires c in GradedCells(delivery.table) && c.key in answers
    requires answers[c.key] in Distractors(delivery.abc, delivery.table, spell)
    ensures Misplaced(delivery, answers)(c)
  {
    DistractorsAreWrong(delivery.abc, delivery.table, spell);
  }

  /** `w` cells are wrong, and each of them costs a right cell as well. */
  ghost predicate Penalised(r: Result, w: nat) {
    && r.falsePositives == w && w <= r.total && r.correct == r.total - w
    && r.pct == Percent(if r.total > 2 * w then r.total - 2 * w else 0, r.total)
  }

  lemma PenaltyIs(delivery: Delivery, input: Input, wrong: Asked -> bool)
    requires delivery.table.bankMode
    requires forall k | 0 <= k < |GradeAll(delivery, input)| ::
               var o := GradeAll(delivery, input)[k];
               o.firstOk == !wrong(GradedCells(delivery.table)[k]) && Norm(delivery.abc, o.firstValue) != ""
    ensures Penalised(CheckTable(delivery, input), Count(GradedCells(delivery.table), wrong, |GradedCells(delivery.table)|))
  {
    SummaryPenalised(delivery, input, GradeAll(delivery, input), GradedCells(delivery.table), wrong);
  }

  lemma SummaryPenalised(delivery: Delivery, input: Input, out: seq<Outcome>, cells: seq<Asked>, wrong: Asked -> bool)
    requires delivery.table.bankMode && |out| == |cells|
    requires forall k | 0 <= k < |out| :: out[k].firstOk == !wrong(cells[k]) && Norm(delivery.abc, out[k].firstValue) != ""
    ensures Penalised(Summary(delivery, input, out), Count(cells, wrong, |cells|))
  {
    CountsSplit(delivery.abc, out, cells, wrong, |cells|);
  }

  lemma BankOutcomes(delivery: Delivery, spell: Asked -> seq<string>, answers: map<string, string>)
    requires Lawful(delivery.abc) && delivery.bank == BankForms(delivery.abc, delivery.table, spell)
    requires AnsweredFromBank(delivery, answers)
    ensures var out := GradeAll(delivery, Input(answers, 1, {}, None));
            forall k | 0 <= k < |out| ::
              out[k].firstOk == !Misplaced(delivery, answers)(GradedCells(delivery.table)[k])
              && Norm(delivery.abc, out[k].firstValue) != ""
  {
    var cells := GradedCells(delivery.table);
    forall k | 0 <= k < |cells|
      ensures var o := GradeCell(delivery, Input(answers, 1, {}, None), cells[k]);
              o.firstOk == !Misplaced(delivery, answers)(cells[k]) && Norm(delivery.abc, o.firstValue) != ""
    {
      var c := cells[k];
      assert c in cells;
      OfferedIsNotBlank(delivery.abc, delivery.table, spell, answers[c.key]);
      OfferedCounts(delivery, answers, c);
    }
  }

  lemma {:induction false} NoneWrong(cells: seq<Asked>, wrong: Asked -> bool, n: nat)
    requires n <= |cells| && forall c | c in cells :: !wrong(c)
    ensures Count(cells, wrong, n) == 0
  {
    if n > 0 { NoneWrong(cells, wrong, n - 1); }
  }

  /** Answering every cell with its key from the bank scores 100 and passes any threshold up to
      100. */
  lemma KeysScoreFull(delivery: Delivery, spell: Asked -> seq<string>, answers: map<string, string>)
    requires Lawful(delivery.abc) && delivery.table.bankMode && delivery.bank == BankForms(delivery.abc, delivery.table, spell)
    requires GradedCells(delivery.table) != []
    requires forall c | c in GradedCells(delivery.table) ::
               c.key in answers && Norm(delivery.abc, answers[c.key]) == Norm(delivery.abc, c.cell.value)
    ensures var r := Run(Checker(delivery), [answers], 1);
            r.pct == 100 && r.falsePositives == 0 && (r.passed <==> delivery.table.threshold <= 100)
  {
    var cells := GradedCells(delivery.table);
    forall c | c in cells
      ensures InBank(delivery.abc, delivery.bank, answers[c.key]) && !Misplaced(delivery, answers)(c)
    {
      KeyIsOffered(delivery, spell, answers[c.key], c);
    }
    BankScore(delivery, spell, answers);
    NoneWrong(cells, Misplaced(delivery, answers), |cells|);
    FullPasses(delivery, Input(answers, 1, {}, None));
  }

  lemma KeyIsOffered(delivery: Delivery, spell: Asked -> seq<string>, answer: string, c: Asked)
    requires Lawful(delivery.abc) && delivery.bank == BankForms(delivery.abc, delivery.table, spell)
    requires c in GradedCells(delivery.table) && Norm(delivery.abc, answer) == Norm(delivery.abc, c.cell.value)
    ensures InBank(delivery.abc, delivery.bank, answer) && CellOk(delivery.abc, c.cell, answer)
  {
    var t := delivery.table;
    BankIs(delivery.abc, t, spell);
    OnlyGradedIs(AskedCells(t.rows, t.slots, |t.rows|), c);
    NormBlank(delivery.abc, c.cell.value);
    KeyIsOk(delivery.abc, c.cell, answer);
    assert InBank(delivery.abc, delivery.bank, c.cell.value);
  }

  lemma FullPercent(n: nat)
    requires n > 0
    ensures Percent(n, n) == 100
  {
    var x := n as real;
    assert x / x == 1.0;
  }

  lemma FullPasses(delivery: Delivery, input: Input)
    requires GradedCells(delivery.table) != [] && Penalised(CheckTable(delivery, input), 0)
    ensures var r := CheckTable(delivery, input);
            r.pct == 100 && r.falsePositives == 0 && (r.passed <==> delivery.table.threshold <= 100)
  {
    FullSummary(delivery, input, GradeAll(delivery, input));
  }

  lemma FullSummary(delivery: Delivery, input: Input, out: seq<Outcome>)
    requires out != [] && Penalised(Summary(delivery, input, out), 0)
    ensures var r := Summary(delivery, input, out); r.pct == 100 && (r.passed <==> delivery.table.threshold <= 100)
  {
    FullPercent(|out|);
    ScaleCompare(delivery.table.threshold, |out|);
  }

  lemma ScaleCompare(threshold: int, n: nat)
    requires n > 0
    ensures n * 100 >= threshold * n <==> threshold <= 100
  {
    assert n * 100 - threshold * n == (100 - threshold) * n;
  }

  // ----- Rows -----

  function SumAsked(rows: seq<RowOutcome>): nat { if rows == [] then 0 else SumAsked(rows[..|rows| - 1]) + rows[|rows| - 1].asked }
  function SumOk(rows: seq<RowOutcome>): nat { if rows == [] then 0 else SumOk(rows[..|rows| - 1]) + rows[|rows| - 1].ok }
  function SumFirst(rows: seq<RowOutcome>): nat { if rows == [] then 0 else SumFirst(rows[..|rows| - 1]) + rows[|rows| - 1].firstOk }

  lemma {:induction false} SumUpdate(rows: seq<RowOutcome>, i: nat, row: RowOutcome)
    requires i < |rows|
    ensures SumAsked(rows[i := row]) == SumAsked(rows) - rows[i].asked + row.asked
    ensures SumOk(rows[i := row]) == SumOk(rows) - rows[i].ok + row.ok
    ensures SumFirst(rows[i := row]) == SumFirst(rows) - rows[i].firstOk + row.firstOk
    decreases |rows|
  {
    var next, init := rows[i := row], rows[..|rows| - 1];
    if i < |rows| - 1 {
      SumUpdate(init, i, row);
      assert next[..|next| - 1] == init[i := row];
    } else {
      assert next[..|next| - 1] == init;
    }
  }

  lemma SumSnoc(rows: seq<RowOutcome>, row: RowOutcome)
    ensures SumAsked(rows + [row]) == SumAsked(rows) + row.asked
    ensures SumOk(rows + [row]) == SumOk(rows) + row.ok
    ensures SumFirst(rows + [row]) == SumFirst(rows) + row.firstOk
  {
    assert (rows + [row])[..|rows|] == rows;
  }

  /** The rows account for every graded cell exactly once: one outcome a row, adding up to the
      table. */
  lemma {:induction false} RowsAddUp(cells: seq<Outcome>, n: nat)
    requires n <= |cells|
    ensures var rows := Tally(cells, n);
            && SumAsked(rows) == n
            && SumOk(rows) == Count(cells, RightNow(), n)
            && SumFirst(rows) == Count(cells, FirstRight(), n)
            && DistinctRows(rows)
  {
    if n > 0 {
      RowsAddUp(cells, n - 1);
      TalliedSums(Tally(cells, n - 1), cells[n - 1]);
    }
  }

  ghost predicate DistinctRows(rows: seq<RowOutcome>) { forall i, j | 0 <= i < j < |rows| :: rows[i].rowId != rows[j].rowId }

  lemma TalliedSums(rows: seq<RowOutcome>, o: Outcome)
    requires DistinctRows(rows)
    ensures var next := Tallied(rows, o);
            && DistinctRows(next)
            && SumAsked(next) == SumAsked(rows) + 1
            && SumOk(next) == SumOk(rows) + (if o.ok then 1 else 0)
            && SumFirst(next) == SumFirst(rows) + (if o.firstOk then 1 else 0)
  {
    var i := FindRow(rows, o.cell.row.id, 0);
    if i < |rows| {
      SumUpdate(rows, i, Add(rows[i], o));
    } else {
      SumSnoc(rows, Add(RowOutcome(o.cell.row.id, 0, 0, 0), o));
    }
  }
}
