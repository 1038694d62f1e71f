/** The inflection table: its cells, what a right cell is, and the bank of forms. */
module InflectionTable {
  import opened Sequences
  import opened Text
  import opened Tokens

  datatype Cell = Cell(ask: bool, value: string, accept: seq<string>)
  datatype Slot = Slot(id: string, endings: seq<string>, swaps: seq<(string, string)>)
  datatype Row = Row(id: string, headword: string, cells: map<string, Cell>)

  /** `slots` are the slots in play; `hasPack` tells whether the language has a paradigm at all. */
  datatype Table = Table(
    rows: seq<Row>,
    slots: seq<Slot>,
    bankMode: bool,
    bankExtra: int,
    hasPack: bool,
    implausible: seq<string>,
    attempts: nat,
    threshold: int)

  // ----- Comparing a form -----

  /** Trimmed, inner whitespace collapsed, lower case. */
  function Norm(abc: Alphabet, s: string): string {
    var t := Squash(Trim(s));
    if t == "" then "" else abc.lower(t)
  }

  function NormAll(abc: Alphabet, forms: seq<string>): seq<string> {
    if forms == [] then []
    else (if Norm(abc, forms[0]) == "" then [] else [Norm(abc, forms[0])]) + NormAll(abc, forms[1..])
  }

  function CellForms(cell: Cell): seq<string> { [cell.value] + cell.accept }

  /** Every spelling the cell accepts: the key, then its variants. */
  function KeysOf(abc: Alphabet, cell: Cell): seq<string> { NormAll(abc, CellForms(cell)) }

  predicate CellOk(abc: Alphabet, cell: Cell, got: string) {
    var answer := Norm(abc, got);
    answer != "" && answer in KeysOf(abc, cell)
  }

  // ----- The cells that are asked and graded -----

  datatype Asked = Asked(row: Row, slot: Slot, cell: Cell, key: string)

  function CellKey(rowId: string, slotId: string): string { rowId + ":" + slotId }

  function CellOf(row: Row, slotId: string): Cell {
    if slotId in row.cells then row.cells[slotId] else Cell(true, "", [])
  }

  function AskedOf(row: Row, slot: Slot): Asked { Asked(row, slot, CellOf(row, slot.id), CellKey(row.id, slot.id)) }

  function AskedIn(row: Row, slots: seq<Slot>, n: nat): seq<Asked>
    requires n <= |slots|
  {
    if n == 0 then []
    else AskedIn(row, slots, n - 1) + (if CellOf(row, slots[n - 1].id).ask then [AskedOf(row, slots[n - 1])] else [])
  }

  function AskedCells(rows: seq<Row>, slots: seq<Slot>, n: nat): seq<Asked>
    requires n <= |rows|
  {
    if n == 0 then [] else AskedCells(rows, slots, n - 1) + AskedIn(rows[n - 1], slots, |slots|)
  }

  method CollectAsked(t: Table) returns (out: seq<Asked>)
    ensures out == AskedCells(t.rows, t.slots, |t.rows|)
  {
    out := [];
    for r := 0 to |t.rows|
      invariant out == AskedCells(t.rows, t.slots, r)
    {
      ghost var before := out;
      for s := 0 to |t.slots|
        invariant out == before + AskedIn(t.rows[r], t.slots, s)
      {
        var cell := CellOf(t.rows[r], t.slots[s].id);
        if cell.ask { out := out + [Asked(t.rows[r], t.slots[s], cell, CellKey(t.rows[r].id, t.slots[s].id))]; }
      }
    }
  }

  predicate IsGraded(c: Asked) { Trim(c.row.headword) != "" && Trim(c.cell.value) != "" }

  function OnlyGraded(cells: seq<Asked>): seq<Asked> {
    if cells == [] then [] else (if IsGraded(cells[0]) then [cells[0]] else []) + OnlyGraded(cells[1..])
  }

  /** The cells a student is asked and the server grades. */
  function GradedCells(t: Table): seq<Asked> { OnlyGraded(AskedCells(t.rows, t.slots, |t.rows|)) }

  // ----- Distractors -----

  predicate EndsWith(s: string, tail: string) { |tail| <= |s| && s[|s| - |tail|..] == tail }

  /** `s.slice(0, -n)` — which is empty when `n` is 0. */
  function CutEnd(s: string, n: nat): string
    requires n <= |s|
  {
    if n == 0 then "" else s[..|s| - n]
  }

  /** What `f` gives for any of the first `n` elements. */
  function UnionOf<T>(f: T -> set<string>, xs: seq<T>, n: nat): set<string>
    requires n <= |xs|
  {
    if n == 0 then {} else UnionOf(f, xs, n - 1) + f(xs[n - 1])
  }

  /** The variant of `form` that one of the swaps allows. */
  function SwapIn(form: string): ((string, string)) -> set<string> {
    (swap: (string, string)) =>
      if EndsWith(form, swap.0) && |form| > |swap.0| then {CutEnd(form, |swap.0|) + swap.1} else {}
  }

  /** A form, compared, and the variants the standard allows beside it. */
  function FormTaken(abc: Alphabet, slot: Slot): string -> set<string> {
    (form: string) =>
      var n := Norm(abc, form);
      if n == "" then {} else {n} + UnionOf(SwapIn(n), slot.swaps, |slot.swaps|)
  }

  function SlotTaken(abc: Alphabet, row: Row): Slot -> set<string> {
    (slot: Slot) =>
      if slot.id !in row.cells then {}
      else
        var forms := CellForms(row.cells[slot.id]);
        UnionOf(FormTaken(abc, slot), forms, |forms|)
  }

  function RowTaken(abc: Alphabet, slots: seq<Slot>): Row -> set<string> {
    (row: Row) => UnionOf(SlotTaken(abc, row), slots, |slots|)
  }

  /** Every form that stands anywhere in the table, given or asked, and what is right beside it. */
  function Taken(abc: Alphabet, t: Table): set<string> { UnionOf(RowTaken(abc, t.slots), t.rows, |t.rows|) }

  predicate StandsAt(s: string, part: string, k: nat) { k + |part| <= |s| && s[k..k + |part|] == part }

  predicate Contains(s: string, part: string) { exists k | 0 <= k <= |s| :: StandsAt(s, part, k) }

  /** Forms with a spelling in them that no word of the language has. */
  function Implausible(parts: seq<string>): string -> bool {
    (n: string) => exists k | 0 <= k < |parts| :: Contains(n, parts[k])
  }

  function Never(): string -> bool { (n: string) => false }

  /** A form as it is compared and as it is offered. */
  datatype Form = Form(norm: string, text: string)

  function FormOf(abc: Alphabet, s: string): Form { Form(Norm(abc, s), Trim(s)) }

  function FormsOf(abc: Alphabet, ss: seq<string>): (out: seq<Form>)
    ensures |out| == |ss| && forall k | 0 <= k < |ss| :: out[k] == FormOf(abc, ss[k])
  {
    seq(|ss|, k requires 0 <= k < |ss| => FormOf(abc, ss[k]))
  }

  predicate Usable(form: Form, taken: set<string>, bad: string -> bool) {
    form.norm != "" && form.norm !in taken && !bad(form.norm)
  }

  /** Of the candidates, in order, those that are forms nobody has offered yet. */
  function Fresh(candidates: seq<Form>, taken: set<string>, bad: string -> bool): seq<string> {
    if candidates == [] then []
    else
      var c := candidates[0];
      if !Usable(c, taken, bad) then Fresh(candidates[1..], taken, bad)
      else [c.text] + Fresh(candidates[1..], taken + {c.norm}, bad)
  }

  /** The candidates of one round: each queue's `round`-th, from queue `k` on. */
  function Round(queues: seq<seq<Form>>, round: nat, k: nat): seq<Form>
    requires k <= |queues|
    decreases |queues| - k
  {
    if k == |queues| then []
    else (if round < |queues[k]| then [queues[k][round]] else []) + Round(queues, round, k + 1)
  }

  function MaxLength(queues: seq<seq<Form>>): (m: nat)
    ensures forall k | 0 <= k < |queues| :: |queues[k]| <= m
  {
    if queues == [] then 0
    else
      var rest, last := MaxLength(queues[..|queues| - 1]), |queues[|queues| - 1]|;
      if last > rest then last else rest
  }

  predicate AnyLonger(queues: seq<seq<Form>>, round: nat) { exists k | 0 <= k < |queues| :: |queues[k]| > round }

  /** All candidates, dealt in turns: the first of every queue, then the second of every queue. */
  function Dealt(queues: seq<seq<Form>>, round: nat): seq<Form>
    decreases MaxLength(queues) - round
  {
    if !AnyLonger(queues, round) then [] else Round(queues, round, 0) + Dealt(queues, round + 1)
  }

  function Want(t: Table): nat { if t.bankExtra > 0 then t.bankExtra else 0 }

  /** `spell` writes the endings of a cell's slot out for its row. */
  function Queues(abc: Alphabet, t: Table, spell: Asked -> seq<string>): (qs: seq<seq<Form>>)
    ensures |qs| == |GradedCells(t)|
  {
    var cells := GradedCells(t);
    seq(|cells|, k requires 0 <= k < |cells| => FormsOf(abc, spell(cells[k])))
  }

  /** The distractors: the first fresh candidates in dealing order, as many as are wanted. */
  function Distractors(abc: Alphabet, t: Table, spell: Asked -> seq<string>): seq<string> {
    if !t.hasPack then []
    else Take(Fresh(Dealt(Queues(abc, t, spell), 0), Taken(abc, t), Implausible(t.implausible)), Want(t))
  }

  // ----- The bank -----

  function KeyForms(cells: seq<Asked>): (out: seq<string>)
    ensures |out| == |cells| && forall k | 0 <= k < |cells| :: out[k] == cells[k].cell.value
  {
    seq(|cells|, k requires 0 <= k < |cells| => cells[k].cell.value)
  }

  /** Every form the bank offers: each key once, then the distractors. */
  function BankForms(abc: Alphabet, t: Table, spell: Asked -> seq<string>): seq<string> {
    Fresh(FormsOf(abc, KeyForms(GradedCells(t)) + Distractors(abc, t, spell)), {}, Never())
  }

  predicate InBank(abc: Alphabet, forms: seq<string>, form: string) {
    exists k | 0 <= k < |forms| :: Norm(abc, forms[k]) == Norm(abc, form)
  }

  // ----- The loops of the source -----

  /** The loop that collects what `f` gives for every element. */
  method Union<T>(f: T -> set<string>, xs: seq<T>) returns (all: set<string>)
    ensures all == UnionOf(f, xs, |xs|)
  {
    all := {};
    for k := 0 to |xs|
      invariant all == UnionOf(f, xs, k)
    {
      all := all + f(xs[k]);
    }
  }

  method DealDistractors(queues: seq<seq<Form>>, taken0: set<string>, bad: string -> bool, want: nat)
    returns (out: seq<string>)
    ensures out == Take(Fresh(Dealt(queues, 0), taken0, bad), want)
  {
    ghost var all := Fresh(Dealt(queues, 0), taken0, bad);
    var taken := taken0;
    out := [];
    var round: nat := 0;
    while |out| < want && AnyLonger(queues, round)
      invariant |out| <= want && out <= all
      invariant |out| < want ==> all == out + Fresh(Dealt(queues, round), taken, bad)
      decreases MaxLength(queues) - round
    {
      out, taken := DealRound(queues, round, Dealt(queues, round + 1), taken, bad, want, out);
      round := round + 1;
    }
  }

  /** One round, stopped as soon as there are enough; `later` is what the next rounds deal. */
  method DealRound(queues: seq<seq<Form>>, round: nat, ghost later: seq<Form>, taken0: set<string>, bad: string -> bool, want: nat, out0: seq<string>)
    returns (out: seq<string>, taken: set<string>)
    requires |out0| < want
    ensures var all := out0 + Fresh(Round(queues, round, 0) + later, taken0, bad);
            && |out| <= want && out <= all
            && (|out| < want ==> all == out + Fresh(later, taken, bad))
  {
    out, taken := out0, taken0;
    ghost var all := out + Fresh(Round(queues, round, 0) + later, taken, bad);
    ghost var rest := Round(queues, round, 0) + later;
    for k := 0 to |queues|
      invariant |out| < want && out <= all
      invariant rest == Round(queues, round, k) + later && all == out + Fresh(rest, taken, bad)
    {
      DealOne(queues, round, k, later, taken, bad);
      rest := Round(queues, round, k + 1) + later;
      if round >= |queues[k]| { continue; }
      var c := queues[k][round];
      if !Usable(c, taken, bad) { continue; }
      Reassociate(out, c.text, Fresh(rest, taken + {c.norm}, bad));
      taken := taken + {c.norm};
      out := out + [c.text];
      if |out| == want { return; }
    }
    assert rest == later;
  }

  lemma DealOne(queues: seq<seq<Form>>, round: nat, k: nat, later: seq<Form>, taken: set<string>, bad: string -> bool)
    requires k < |queues|
    ensures var rest := Round(queues, round, k + 1) + later;
            Fresh(Round(queues, round, k) + later, taken, bad)
            == if round >= |queues[k]| || !Usable(queues[k][round], taken, bad) then Fresh(rest, taken, bad)
               else [queues[k][round].text] + Fresh(rest, taken + {queues[k][round].norm}, bad)
  {
    var rest := Round(queues, round, k + 1) + later;
    if round < |queues[k]| {
      var c := queues[k][round];
      assert Round(queues, round, k) + later == [c] + rest;
      assert ([c] + rest)[1..] == rest;
    } else {
      assert Round(queues, round, k) == Round(queues, round, k + 1);
    }
  }

  method CollectDistractors(abc: Alphabet, t: Table, spell: Asked -> seq<string>) returns (out: seq<string>)
    ensures out == Distractors(abc, t, spell)
  {
    var want := Want(t);
    if !t.hasPack || want == 0 { return []; }
    var taken := Union(RowTaken(abc, t.slots), t.rows);
    out := DealDistractors(Queues(abc, t, spell), taken, Implausible(t.implausible), want);
  }

  method CollectBank(abc: Alphabet, t: Table, spell: Asked -> seq<string>) returns (out: seq<string>)
    ensures out == BankForms(abc, t, spell)
  {
    var distractors := CollectDistractors(abc, t, spell);
    out := Unseen(FormsOf(abc, KeyForms(GradedCells(t)) + distractors));
  }

  method Unseen(forms: seq<Form>) returns (out: seq<string>)
    ensures out == Fresh(forms, {}, Never())
  {
    ghost var all := Fresh(forms, {}, Never());
    var seen: set<string> := {};
    out := [];
    assert forms[0..] == forms;
    for k := 0 to |forms|
      invariant all == out + Fresh(forms[k..], seen, Never())
    {
      var form := forms[k];
      assert forms[k..][0] == form && forms[k..][1..] == forms[k + 1..];
      if form.norm == "" || form.norm in seen { continue; }
      Reassociate(out, form.text, Fresh(forms[k + 1..], seen + {form.norm}, Never()));
      seen := seen + {form.norm};
      out := out + [form.text];
    }
  }
}
