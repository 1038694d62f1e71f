/** What a check of the inflection table counts, read off the forms that were sent. */
module TableScores {
  import opened Options
  import opened Ratios
  import opened Text
  import opened Tokens
  import opened InflectionTable
  import opened Bank
  import opened TableGrading
  import opened TableRuns

  // ----- Comparing forms -----

  lemma {:induction false} SquashEnd(s: string)
    requires s != "" && !IsSpace(s[|s| - 1])
    ensures Squash(s) != "" && !IsSpace(Squash(s)[|Squash(s)| - 1])
    decreases |s|
  {
    if IsSpace(s[0]) {
      var t := TrimStart(s);
      TrimStartShorter(s);
      TrimStartKeepsEnd(s);
      SquashEnd(t);
    } else if |s| > 1 {
      SquashEnd(s[1..]);
    }
  }

  lemma {:induction false} TrimStartKeepsEnd(s: string)
    requires s != "" && !IsSpace(s[|s| - 1])
    ensures var t := TrimStart(s); t != "" && t[|t| - 1] == s[|s| - 1]
  {
    if IsSpace(s[0]) { TrimStartKeepsEnd(s[1..]); }
  }

  /** Forms are compared by their words, lower-cased. */
  lemma FormIs(abc: Alphabet, s: string)
    ensures Norm(abc, s) == if Fields(s) == [] then "" else abc.lower(Join(Fields(s)))
  {
    var t := Trim(s);
    FieldsTrim(s);
    TrimEmpty(s);
    SquashEmpty(t);
    TrimStartEdge(s);
    TrimEndEdge(TrimStart(s));
    if t != "" {
      assert t[0] == TrimStart(s)[0];
      CollapseFromWord(t);
      SquashEnd(t);
      TrimEndIdentity(Squash(t));
    }
  }

  /** The graded cells are the asked ones with a key, in rows with a headword. */
  lemma GradedAre(t: Table, c: Asked)
    ensures c in GradedCells(t) <==>
              && (exists r, s | 0 <= r < |t.rows| && 0 <= s < |t.slots| :: c == AskedOf(t.rows[r], t.slots[s]))
              && c.cell.ask && Fields(c.row.headword) != [] && Fields(c.cell.value) != []
  {
    OnlyGradedIs(AskedCells(t.rows, t.slots, |t.rows|), c);
    TrimEmpty(c.row.headword);
    TrimEmpty(c.cell.value);
    if c in AskedCells(t.rows, t.slots, |t.rows|) { var r, s := AskedCellsFrom(t.rows, t.slots, |t.rows|, c); }
    if r, s :| 0 <= r < |t.rows| && 0 <= s < |t.slots| && c == AskedOf(t.rows[r], t.slots[s]) {
      if c.cell.ask { AskedHas(t.rows, t.slots, r, s, c); }
    }
  }

  lemma AskedHas(rows: seq<Row>, slots: seq<Slot>, r: nat, s: nat, c: Asked)
    requires r < |rows| && s < |slots| && c == AskedOf(rows[r], slots[s]) && c.cell.ask
    ensures c in AskedCells(rows, slots, |rows|)
  {
    RowHas(rows[r], slots, |slots|, s, c);
    AskedMore(rows, slots, r, c);
    AskedGrow(rows, slots, r + 1, |rows|, c);
  }

  lemma {:induction false} AskedGrow(rows: seq<Row>, slots: seq<Slot>, m: nat, n: nat, c: Asked)
    requires m <= n <= |rows| && c in AskedCells(rows, slots, m)
    ensures c in AskedCells(rows, slots, n)
  {
    if m < n {
      AskedGrow(rows, slots, m, n - 1, c);
      AskedMore(rows, slots, n - 1, c);
    }
  }

  lemma AskedMore(rows: seq<Row>, slots: seq<Slot>, n: nat, c: Asked)
    requires n < |rows|
    ensures c in AskedCells(rows, slots, n + 1) <==> c in AskedCells(rows, slots, n) || c in AskedIn(rows[n], slots, |slots|)
  {}

  lemma {:induction false} RowHas(row: Row, slots: seq<Slot>, n: nat, s: nat, c: Asked)
    requires s < n <= |slots| && c == AskedOf(row, slots[s]) && c.cell.ask
    ensures c in AskedIn(row, slots, n)
  {
    if s < n - 1 { RowHas(row, slots, n - 1, s, c); }
  }

  /** A cell the row does not have yet is asked, and has no key. */
  lemma MissingCell(row: Row, slot: Slot)
    requires slot.id !in row.cells
    ensures AskedOf(row, slot).cell == Cell(true, "", []) && AskedOf(row, slot) in AskedIn(row, [slot], 1)
  {
    assert AskedIn(row, [slot], 0) == [];
  }

  /** What a cell shows: what was sent, as long as the bank offers it, unless the cell was found right
      before and that would be wrong now; then its key. */
  lemma CellShows(delivery: Delivery, input: Input, c: Asked)
    ensures var o, sent := GradeCell(delivery, input, c), if c.key in input.answers then Trim(input.answers[c.key]) else "";
            var offered := if delivery.table.bankMode && !InBank(delivery.abc, delivery.bank, sent) then "" else sent;
            && o.cell == c
            && o.value == (if c.key in input.locked && !CellOk(delivery.abc, c.cell, offered) then Trim(c.cell.value) else offered)
  {}

  // ----- What was sent for a cell -----

  /** The form that counts: the one sent, unless the bank does not offer it. */
  function Sent(delivery: Delivery, answers: map<string, string>, c: Asked): string {
    if c.key in answers && (delivery.table.bankMode ==> InBank(delivery.abc, delivery.bank, answers[c.key])) then answers[c.key] else ""
  }

  function Right(delivery: Delivery, answers: map<string, string>): Asked -> bool {
    (c: Asked) => CellOk(delivery.abc, c.cell, Sent(delivery, answers, c))
  }

  /** A form that is no form of the cell; an empty cell is none. */
  function Wrong(delivery: Delivery, answers: map<string, string>): Asked -> bool {
    (c: Asked) => Norm(delivery.abc, Sent(delivery, answers, c)) != "" && !CellOk(delivery.abc, c.cell, Sent(delivery, answers, c))
  }

  lemma OfferIs(delivery: Delivery, answers: map<string, string>, c: Asked)
    ensures Norm(delivery.abc, Offer(delivery, TableGrading.Sent(answers, c.key))) == Norm(delivery.abc, Sent(delivery, answers, c))
    ensures CellOk(delivery.abc, c.cell, Offer(delivery, TableGrading.Sent(answers, c.key))) <==> CellOk(delivery.abc, c.cell, Sent(delivery, answers, c))
  {
    if c.key in answers { NormTrim(delivery.abc, answers[c.key]); }
    FormIs(delivery.abc, "");
  }

  /** A cell is right now when what was sent for it is right, or it was found right before. */
  lemma CellNow(delivery: Delivery, input: Input, c: Asked)
    requires Lawful(delivery.abc) && c in GradedCells(delivery.table)
    ensures GradeCell(delivery, input, c).ok <==> Right(delivery, input.answers)(c) || c.key in input.locked
  {
    OfferIs(delivery, input.answers, c);
    if c.key in input.locked { LockedIsRight(delivery, input, c); }
  }

  // ----- The counts of a check -----

  lemma {:induction false} SameCount<A(!new), B(!new)>(xs: seq<A>, ys: seq<B>, p: A -> bool, q: B -> bool, n: nat)
    requires n <= |xs| == |ys| && forall k | 0 <= k < |xs| :: p(xs[k]) == q(ys[k])
    ensures Count(xs, p, n) == Count(ys, q, n)
  {
    if n > 0 { SameCount(xs, ys, p, q, n - 1); }
  }

  lemma FirstCells(delivery: Delivery, answers: map<string, string>, attempt: nat)
    requires Lawful(delivery.abc)
    ensures var out, cells := GradeAll(delivery, Input(answers, attempt, {}, None)), GradedCells(delivery.table);
            && Count(out, FirstRight(), |out|) == Count(out, RightNow(), |out|) == Count(cells, Right(delivery, answers), |cells|)
            && Count(out, FalsePositive(delivery.abc), |out|) == Count(cells, Wrong(delivery, answers), |cells|)
  {
    var input := Input(answers, attempt, {}, None);
    var out, cells := GradeAll(delivery, input), GradedCells(delivery.table);
    forall k | 0 <= k < |cells|
      ensures out[k].firstOk == out[k].ok == Right(delivery, answers)(cells[k])
      ensures FalsePositive(delivery.abc)(out[k]) == Wrong(delivery, answers)(cells[k])
    {
      OfferIs(delivery, answers, cells[k]);
    }
    SameCount(out, cells, FirstRight(), Right(delivery, answers), |out|);
    SameCount(out, cells, RightNow(), Right(delivery, answers), |out|);
    SameCount(out, cells, FalsePositive(delivery.abc), Wrong(delivery, answers), |out|);
  }

  /** The share of the cells that was earned, in percent, rounded to a whole number. */
  ghost predicate Rounded(pct: int, earned: nat, total: nat) {
    if total == 0 then pct == 0
    else pct as real - 0.5 <= earned as real / total as real * 100.0 < pct as real + 0.5
  }

  ghost predicate Reaches(earned: nat, total: nat, threshold: int) {
    total > 0 && earned as real / total as real * 100.0 >= threshold as real
  }

  function Less(a: nat, b: nat): nat { if a > b then a - b else 0 }

  lemma PercentIs(earned: nat, total: nat)
    ensures Rounded(Percent(earned, total), earned, total)
  {}

  lemma ReachesIs(earned: nat, total: nat, threshold: int)
    ensures Reaches(earned, total, threshold) <==> total > 0 && earned * 100 >= threshold * total
  {
    if total > 0 { RatioTest(earned, total, threshold); }
  }

  /** What the counts of a check make of it. */
  ghost predicate Scores(delivery: Delivery, attempt: nat, r: Result, right: nat, wrong: nat, total: nat) {
    var costs := if delivery.table.bankMode then wrong else 0;
    && r.total == total && r.correct == right && r.falsePositives == costs
    && Rounded(r.pct, Less(right, costs), total)
    && (r.passed <==> Reaches(Less(right, costs), total, delivery.table.threshold))
    && r.checksLeft == Less(if delivery.graded then 1 else delivery.table.attempts, attempt)
  }

  lemma SummaryScores(delivery: Delivery, input: Input, out: seq<Outcome>)
    ensures Scores(delivery, input.attempt, Summary(delivery, input, out),
                   Count(out, FirstRight(), |out|), Count(out, FalsePositive(delivery.abc), |out|), |out|)
  {
    var right, wrong := Count(out, FirstRight(), |out|), Count(out, FalsePositive(delivery.abc), |out|);
    var costs := if delivery.table.bankMode then wrong else 0;
    PercentIs(Less(right, costs), |out|);
    ReachesIs(Less(right, costs), |out|, delivery.table.threshold);
  }

  /** The first check: the cells that got one of their own forms are correct; when typing, a wrong form
      costs nothing more than an empty cell; with the bank it takes back a correct one.  The percentage
      is what is left of the graded cells, and the pass is decided on it before rounding. */
  lemma FirstCheck(delivery: Delivery, answers: map<string, string>)
    requires Lawful(delivery.abc)
    ensures var cells, r := GradedCells(delivery.table), Run(Checker(delivery), [answers], 1);
            var right, wrong := Count(cells, Right(delivery, answers), |cells|), Count(cells, Wrong(delivery, answers), |cells|);
            Scores(delivery, 1, r, right, wrong, |cells|) && r.correctNow == right
  {
    FirstCells(delivery, answers, 1);
    SummaryScores(delivery, Input(answers, 1, {}, None), GradeAll(delivery, Input(answers, 1, {}, None)));
  }
}
