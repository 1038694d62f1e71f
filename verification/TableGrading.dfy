/** Checking the whole inflection table: what a check returns and what it leaves behind. */
module TableGrading {
  import opened Options
  import opened Text
  import opened Tokens
  import opened InflectionTable

  /** A table to be checked, with the forms its bank offers. */
  datatype Delivery = Delivery(abc: Alphabet, table: Table, bank: seq<string>, graded: bool)

  /** `locked` are the cells an earlier check found right; `first` the forms of the first check. */
  datatype Input = Input(answers: map<string, string>, attempt: nat, locked: set<string>, first: Option<map<string, string>>)

  datatype Outcome = Outcome(cell: Asked, value: string, ok: bool, firstValue: string, firstOk: bool)

  datatype RowOutcome = RowOutcome(rowId: string, asked: nat, ok: nat, firstOk: nat)

  datatype Result = Result(
    cells: seq<Outcome>,
    rows: seq<RowOutcome>,
    total: nat,
    correct: nat,
    correctNow: nat,
    falsePositives: nat,
    pct: int,
    passed: bool,
    checksLeft: nat,
    closed: bool,
    locked: set<string>,
    firstValues: map<string, string>)

  // ----- One cell -----

  function Sent(answers: map<string, string>, key: string): string {
    if key in answers then Trim(answers[key]) else ""
  }

  /** A bank answer that the bank does not offer reads as empty. */
  function Offer(delivery: Delivery, sent: string): string {
    if delivery.table.bankMode && sent != "" && !InBank(delivery.abc, delivery.bank, sent) then "" else sent
  }

  function GradeCell(delivery: Delivery, input: Input, c: Asked): Outcome {
    var offered := Offer(delivery, Sent(input.answers, c.key));
    var value := if c.key in input.locked && !CellOk(delivery.abc, c.cell, offered) then Trim(c.cell.value) else offered;
    var firstValue := if input.first.Some? && c.key in input.first.value then input.first.value[c.key] else value;
    Outcome(c, value, CellOk(delivery.abc, c.cell, value), firstValue, CellOk(delivery.abc, c.cell, firstValue))
  }

  function GradeAll(delivery: Delivery, input: Input): (out: seq<Outcome>)
    ensures |out| == |GradedCells(delivery.table)|
    ensures forall k | 0 <= k < |out| :: out[k] == GradeCell(delivery, input, GradedCells(delivery.table)[k])
  {
    var cells := GradedCells(delivery.table);
    seq(|cells|, k requires 0 <= k < |cells| => GradeCell(delivery, input, cells[k]))
  }

  // ----- The counts -----

  function Count<T>(cells: seq<T>, which: T -> bool, n: nat): (c: nat)
    requires n <= |cells|
    ensures c <= n
  {
    if n == 0 then 0 else Count(cells, which, n - 1) + if which(cells[n - 1]) then 1 else 0
  }

  function FirstRight(): Outcome -> bool { (o: Outcome) => o.firstOk }

  function RightNow(): Outcome -> bool { (o: Outcome) => o.ok }

  /** Filled wrongly on the first check. */
  function FalsePositive(abc: Alphabet): Outcome -> bool {
    (o: Outcome) => !o.firstOk && Norm(abc, o.firstValue) != ""
  }

  function OkKeys(cells: seq<Outcome>, n: nat): set<string>
    requires n <= |cells|
  {
    if n == 0 then {} else OkKeys(cells, n - 1) + if cells[n - 1].ok then {cells[n - 1].cell.key} else {}
  }

  function FirstValues(cells: seq<Outcome>, n: nat): map<string, string>
    requires n <= |cells|
  {
    if n == 0 then map[] else FirstValues(cells, n - 1)[cells[n - 1].cell.key := cells[n - 1].firstValue]
  }

  function MaxChecks(delivery: Delivery): nat { if delivery.graded then 1 else delivery.table.attempts }

  /** `Math.round(earned / total * 100)` */
  function Percent(earned: nat, total: nat): int {
    if total == 0 then 0 else (earned as real / total as real * 100.0 + 0.5).Floor
  }

  // ----- Rows -----

  function FindRow(rows: seq<RowOutcome>, rowId: string, k: nat): (i: nat)
    requires k <= |rows|
    ensures k <= i <= |rows| && (i < |rows| ==> rows[i].rowId == rowId)
    ensures forall t | k <= t < i :: rows[t].rowId != rowId
    decreases |rows| - k
  {
    if k == |rows| || rows[k].rowId == rowId then k else FindRow(rows, rowId, k + 1)
  }

  function Add(row: RowOutcome, o: Outcome): RowOutcome {
    RowOutcome(row.rowId, row.asked + 1, row.ok + (if o.ok then 1 else 0), row.firstOk + (if o.firstOk then 1 else 0))
  }

  function Tallied(rows: seq<RowOutcome>, o: Outcome): seq<RowOutcome> {
    var i := FindRow(rows, o.cell.row.id, 0);
    if i < |rows| then rows[i := Add(rows[i], o)] else rows + [Add(RowOutcome(o.cell.row.id, 0, 0, 0), o)]
  }

  function Tally(cells: seq<Outcome>, n: nat): seq<RowOutcome>
    requires n <= |cells|
  {
    if n == 0 then [] else Tallied(Tally(cells, n - 1), cells[n - 1])
  }

  method TallyRows(cells: seq<Outcome>) returns (rows: seq<RowOutcome>)
    ensures rows == Tally(cells, |cells|)
  {
    rows := [];
    for n := 0 to |cells|
      invariant rows == Tally(cells, n)
    {
      var o := cells[n];
      var i: nat := 0;
      while i < |rows| && rows[i].rowId != o.cell.row.id
        invariant i <= |rows| && FindRow(rows, o.cell.row.id, i) == FindRow(rows, o.cell.row.id, 0)
      {
        i := i + 1;
      }
      if i == |rows| { rows := rows + [RowOutcome(o.cell.row.id, 0, 0, 0)]; }
      rows := rows[i := Add(rows[i], o)];
    }
  }

  // ----- The check -----

  function CheckTable(delivery: Delivery, input: Input): Result { Summary(delivery, input, GradeAll(delivery, input)) }

  function Summary(delivery: Delivery, input: Input, cells: seq<Outcome>): Result {
    var total := |cells|;
    var correct, correctNow := Count(cells, FirstRight(), total), Count(cells, RightNow(), total);
    var falsePositives := if delivery.table.bankMode then Count(cells, FalsePositive(delivery.abc), total) else 0;
    var earned: nat := if correct > falsePositives then correct - falsePositives else 0;
    var max := MaxChecks(delivery);
    var checksLeft: nat := if max > input.attempt then max - input.attempt else 0;
    Result(cells, Tally(cells, total), total, correct, correctNow, falsePositives,
           Percent(earned, total),
           total > 0 && earned * 100 >= delivery.table.threshold * total,
           checksLeft,
           (total > 0 && correctNow == total) || checksLeft == 0,
           input.locked + OkKeys(cells, total),
           FirstValues(cells, total))
  }

  function Checker(delivery: Delivery): Input -> Result { (input: Input) => CheckTable(delivery, input) }

  /** The server carries `locked` and `firstValues` from check to check: the `n`-th check of a run
      of answers. */
  function Run(check: Input -> Result, run: seq<map<string, string>>, n: nat): Result
    requires 0 < n <= |run|
  {
    if n == 1 then check(Input(run[0], 1, {}, None))
    else
      var before := Run(check, run, n - 1);
      check(Input(run[n - 1], n, before.locked, Some(before.firstValues)))
  }
}
