/** What the bank of forms offers: every key once, and distractors that are wrong everywhere. */
module Bank {
  import opened Text
  import opened Tokens
  import opened InflectionTable

  // ----- Comparing forms -----

  lemma TrimTwice(s: string)
    ensures Trim(Trim(s)) == Trim(s)
  {
    var u := TrimStart(s);
    TrimStartEdge(s);
    TrimEndEdge(u);
    TrimIdentity(TrimEnd(u));
  }

  lemma NormTrim(abc: Alphabet, s: string)
    ensures Norm(abc, Trim(s)) == Norm(abc, s)
  {
    TrimTwice(s);
  }

  lemma SquashEmpty(s: string)
    ensures Squash(s) == "" <==> s == ""
  {}

  lemma NormBlank(abc: Alphabet, s: string)
    requires Lawful(abc)
    ensures Norm(abc, s) == "" <==> Trim(s) == ""
  {
    SquashEmpty(Trim(s));
  }

  lemma {:induction false} NormAllIs(abc: Alphabet, forms: seq<string>, k: string)
    ensures k in NormAll(abc, forms) <==> k != "" && exists i | 0 <= i < |forms| :: Norm(abc, forms[i]) == k
  {
    if forms != [] {
      NormAllIs(abc, forms[1..], k);
      assert forms == [forms[0]] + forms[1..];
      if k != "" && exists i | 0 <= i < |forms| :: Norm(abc, forms[i]) == k {
        var i :| 0 <= i < |forms| && Norm(abc, forms[i]) == k;
        if i > 0 { assert forms[1..][i - 1] == forms[i]; }
      }
    }
  }

  /** A cell accepts exactly the forms that compare equal to its key or to a variant. */
  lemma CellOkIs(abc: Alphabet, cell: Cell, got: string)
    ensures CellOk(abc, cell, got) <==>
              Norm(abc, got) != "" && exists i | 0 <= i < |CellForms(cell)| :: Norm(abc, CellForms(cell)[i]) == Norm(abc, got)
  {
    NormAllIs(abc, CellForms(cell), Norm(abc, got));
  }

  lemma KeyIsOk(abc: Alphabet, cell: Cell, got: string)
    requires Norm(abc, got) == Norm(abc, cell.value) != ""
    ensures CellOk(abc, cell, got)
  {
    CellOkIs(abc, cell, got);
    assert CellForms(cell)[0] == cell.value;
  }

  // ----- The greedy filter -----

  ghost predicate Faithful(abc: Alphabet, forms: seq<Form>) {
    forall k | 0 <= k < |forms| :: forms[k].norm == Norm(abc, forms[k].text)
  }

  lemma FormsFaithful(abc: Alphabet, ss: seq<string>)
    ensures Faithful(abc, FormsOf(abc, ss))
  {
    forall k | 0 <= k < |ss| ensures FormsOf(abc, ss)[k].norm == Norm(abc, FormsOf(abc, ss)[k].text) {
      NormTrim(abc, ss[k]);
    }
  }

  /** No two forms compare equal, and none of them is blank, bad or taken. */
  ghost predicate AllNew(abc: Alphabet, out: seq<string>, taken: set<string>, bad: string -> bool) {
    && (forall i | 0 <= i < |out| :: Norm(abc, out[i]) != "" && Norm(abc, out[i]) !in taken && !bad(Norm(abc, out[i])))
    && (forall i, j | 0 <= i < j < |out| :: Norm(abc, out[i]) != Norm(abc, out[j]))
  }

  ghost predicate Offered(abc: Alphabet, out: seq<string>, norm: string) { exists i | 0 <= i < |out| :: Norm(abc, out[i]) == norm }

  lemma OfferedCons(abc: Alphabet, x: string, out: seq<string>, norm: string)
    ensures Offered(abc, [x] + out, norm) <==> Norm(abc, x) == norm || Offered(abc, out, norm)
  {
    var all := [x] + out;
    if Offered(abc, all, norm) {
      var i :| 0 <= i < |all| && Norm(abc, all[i]) == norm;
      if i > 0 { assert out[i - 1] == all[i]; }
    }
    if Norm(abc, x) == norm { assert all[0] == x; }
    if Offered(abc, out, norm) {
      var i :| 0 <= i < |out| && Norm(abc, out[i]) == norm;
      assert all[i + 1] == out[i];
    }
  }

  lemma AllNewCons(abc: Alphabet, x: string, out: seq<string>, taken: set<string>, bad: string -> bool)
    requires AllNew(abc, out, taken + {Norm(abc, x)}, bad)
    requires Norm(abc, x) != "" && Norm(abc, x) !in taken && !bad(Norm(abc, x))
    ensures AllNew(abc, [x] + out, taken, bad)
  {
    var all := [x] + out;
    assert forall k | 1 <= k < |all| :: all[k] == out[k - 1];
  }

  /** Nothing comes through twice or comes through that should not, and nothing that should is
      left out. */
  lemma {:induction false} FreshIs(abc: Alphabet, forms: seq<Form>, taken: set<string>, bad: string -> bool)
    requires Faithful(abc, forms)
    ensures AllNew(abc, Fresh(forms, taken, bad), taken, bad)
    ensures forall k | 0 <= k < |forms| && Usable(forms[k], taken, bad) :: Offered(abc, Fresh(forms, taken, bad), forms[k].norm)
    decreases |forms|
  {
    if forms != [] {
      var c, rest := forms[0], forms[1..];
      if !Usable(c, taken, bad) {
        FreshIs(abc, rest, taken, bad);
        forall k | 0 <= k < |forms| && Usable(forms[k], taken, bad) ensures Offered(abc, Fresh(forms, taken, bad), forms[k].norm) {
          assert forms[k] == rest[k - 1];
        }
      } else {
        var out := Fresh(rest, taken + {c.norm}, bad);
        FreshIs(abc, rest, taken + {c.norm}, bad);
        AllNewCons(abc, c.text, out, taken, bad);
        forall k | 0 <= k < |forms| && Usable(forms[k], taken, bad) ensures Offered(abc, [c.text] + out, forms[k].norm) {
          OfferedCons(abc, c.text, out, forms[k].norm);
          if k > 0 { assert forms[k] == rest[k - 1]; }
        }
      }
    }
  }

  // ----- Distractors -----

  lemma {:induction false} UnionHas<T>(f: T -> set<string>, xs: seq<T>, n: nat, k: nat, x: string)
    requires k < n <= |xs| && x in f(xs[k])
    ensures x in UnionOf(f, xs, n)
    decreases n
  {
    if k < n - 1 { UnionHas(f, xs, n - 1, k, x); }
  }

  lemma {:induction false} OnlyGradedIs(cells: seq<Asked>, c: Asked)
    ensures c in OnlyGraded(cells) <==> c in cells && IsGraded(c)
  {
    if cells != [] {
      OnlyGradedIs(cells[1..], c);
      assert cells == [cells[0]] + cells[1..];
    }
  }

  lemma {:induction false} AskedInFrom(row: Row, slots: seq<Slot>, n: nat, c: Asked) returns (s: nat)
    requires n <= |slots| && c in AskedIn(row, slots, n)
    ensures s < n && c == AskedOf(row, slots[s]) && c.cell.ask
  {
    if c in AskedIn(row, slots, n - 1) { s := AskedInFrom(row, slots, n - 1, c); } else { s := n - 1; }
  }

  lemma {:induction false} AskedCellsFrom(rows: seq<Row>, slots: seq<Slot>, n: nat, c: Asked) returns (r: nat, s: nat)
    requires n <= |rows| && c in AskedCells(rows, slots, n)
    ensures r < n && s < |slots| && c == AskedOf(rows[r], slots[s]) && c.cell.ask
  {
    if c in AskedCells(rows, slots, n - 1) {
      r, s := AskedCellsFrom(rows, slots, n - 1, c);
    } else {
      s := AskedInFrom(rows[n - 1], slots, |slots|, c);
      r := n - 1;
    }
  }

  /** Everything a graded cell accepts stands in the table, so no distractor may use it. */
  lemma KeysAreTaken(abc: Alphabet, t: Table, c: Asked, key: string)
    requires c in GradedCells(t) && key in KeysOf(abc, c.cell)
    ensures key in Taken(abc, t)
  {
    OnlyGradedIs(AskedCells(t.rows, t.slots, |t.rows|), c);
    var r, s := AskedCellsFrom(t.rows, t.slots, |t.rows|, c);
    var row, slot := t.rows[r], t.slots[s];
    assert Trim("") == "";
    assert slot.id in row.cells;
    var forms := CellForms(c.cell);
    NormAllIs(abc, forms, key);
    var i :| 0 <= i < |forms| && Norm(abc, forms[i]) == key;
    assert key in FormTaken(abc, slot)(forms[i]);
    UnionHas(FormTaken(abc, slot), forms, |forms|, i, key);
    UnionHas(SlotTaken(abc, row), t.slots, |t.slots|, s, key);
    UnionHas(RowTaken(abc, t.slots), t.rows, |t.rows|, r, key);
  }

  lemma RoundFaithful(abc: Alphabet, t: Table, spell: Asked -> seq<string>, k: nat, i: nat)
    requires k < |Queues(abc, t, spell)| && i < |Queues(abc, t, spell)[k]|
    ensures var form := Queues(abc, t, spell)[k][i]; form.norm == Norm(abc, form.text)
  {
    FormsFaithful(abc, spell(GradedCells(t)[k]));
  }

  lemma {:induction false} RoundHas(queues: seq<seq<Form>>, round: nat, k: nat, j: nat)
    requires k <= j < |queues| && round < |queues[j]|
    ensures queues[j][round] in Round(queues, round, k)
    decreases j - k
  {
    if k < j { RoundHas(queues, round, k + 1, j); }
  }

  lemma {:induction false} RoundFrom(queues: seq<seq<Form>>, round: nat, k: nat, x: Form) returns (j: nat)
    requires k <= |queues| && x in Round(queues, round, k)
    ensures j < |queues| && round < |queues[j]| && x == queues[j][round]
    decreases |queues| - k
  {
    if round < |queues[k]| && x == queues[k][round] { j := k; } else { j := RoundFrom(queues, round, k + 1, x); }
  }

  lemma RoundIs(queues: seq<seq<Form>>, round: nat, x: Form)
    ensures x in Round(queues, round, 0) <==> exists j | 0 <= j < |queues| :: round < |queues[j]| && x == queues[j][round]
  {
    if j :| 0 <= j < |queues| && round < |queues[j]| && x == queues[j][round] { RoundHas(queues, round, 0, j); }
    if x in Round(queues, round, 0) { var j := RoundFrom(queues, round, 0, x); }
  }

  /** Dealing in turns deals every candidate of every queue, and nothing else. */
  lemma {:induction false} DealtIs(queues: seq<seq<Form>>, round: nat, x: Form)
    ensures x in Dealt(queues, round) <==>
              exists i, j | round <= i && 0 <= j < |queues| && i < |queues[j]| :: x == queues[j][i]
    decreases MaxLength(queues) - round
  {
    if AnyLonger(queues, round) {
      DealtIs(queues, round + 1, x);
      RoundIs(queues, round, x);
      if x in Round(queues, round, 0) {
        var j :| 0 <= j < |queues| && round < |queues[j]| && x == queues[j][round];
        assert x == queues[j][round];
      }
      if i, j :| round <= i && 0 <= j < |queues| && i < |queues[j]| && x == queues[j][i] {
        if i == round { assert x in Round(queues, round, 0); } else { assert x in Dealt(queues, round + 1); }
      }
    }
  }

  lemma DealtFaithful(abc: Alphabet, t: Table, spell: Asked -> seq<string>)
    ensures Faithful(abc, Dealt(Queues(abc, t, spell), 0))
  {
    var queues := Queues(abc, t, spell);
    var dealt := Dealt(queues, 0);
    forall k | 0 <= k < |dealt| ensures dealt[k].norm == Norm(abc, dealt[k].text) {
      assert dealt[k] in dealt;
      DealtIs(queues, 0, dealt[k]);
      var i, j :| 0 <= i && 0 <= j < |queues| && i < |queues[j]| && dealt[k] == queues[j][i];
      RoundFaithful(abc, t, spell, j, i);
    }
  }

  /** The distractors are new forms, at most as many as wanted; none of them is right in any graded
      cell. */
  lemma DistractorsAreWrong(abc: Alphabet, t: Table, spell: Asked -> seq<string>)
    ensures var ds := Distractors(abc, t, spell);
            && |ds| <= Want(t)
            && AllNew(abc, ds, Taken(abc, t), Implausible(t.implausible))
            && (forall d, c | d in ds && c in GradedCells(t) :: !CellOk(abc, c.cell, d))
  {
    var ds, taken, bad := Distractors(abc, t, spell), Taken(abc, t), Implausible(t.implausible);
    DealtFaithful(abc, t, spell);
    FreshIs(abc, Dealt(Queues(abc, t, spell), 0), taken, bad);
    forall d, c | d in ds && c in GradedCells(t) ensures !CellOk(abc, c.cell, d) {
      var i :| 0 <= i < |ds| && ds[i] == d;
      assert Norm(abc, ds[i]) !in taken;
      if CellOk(abc, c.cell, d) { KeysAreTaken(abc, t, c, Norm(abc, d)); }
    }
  }

  /** A short bank is short for lack of forms: every ending of every graded cell that could be used
      is used. */
  lemma ShortBankIsExhausted(abc: Alphabet, t: Table, spell: Asked -> seq<string>, k: nat, i: nat)
    requires t.hasPack && |Distractors(abc, t, spell)| < Want(t)
    requires k < |GradedCells(t)| && i < |spell(GradedCells(t)[k])|
    ensures var norm := Norm(abc, spell(GradedCells(t)[k])[i]);
            || norm == "" || norm in Taken(abc, t) || Implausible(t.implausible)(norm)
            || Offered(abc, Distractors(abc, t, spell), norm)
  {
    var queues, taken, bad := Queues(abc, t, spell), Taken(abc, t), Implausible(t.implausible);
    var dealt, form := Dealt(queues, 0), queues[k][i];
    DealtIs(queues, 0, form);
    var at :| 0 <= at < |dealt| && dealt[at] == form;
    DealtFaithful(abc, t, spell);
    FreshIs(abc, dealt, taken, bad);
    assert Usable(dealt[at], taken, bad) ==> Offered(abc, Fresh(dealt, taken, bad), form.norm);
  }

  // ----- The bank -----

  function Norms(abc: Alphabet, out: seq<string>): set<string> { set k | 0 <= k < |out| :: Norm(abc, out[k]) }

  lemma {:induction false} FreshConcat(abc: Alphabet, a: seq<Form>, b: seq<Form>, taken: set<string>, bad: string -> bool)
    requires Faithful(abc, a)
    ensures Fresh(a + b, taken, bad) == Fresh(a, taken, bad) + Fresh(b, taken + Norms(abc, Fresh(a, taken, bad)), bad)
    decreases |a|
  {
    if a == [] {
      assert [] + b == b;
      assert Norms(abc, []) == {} && taken + {} == taken;
    } else {
      var c, rest := a[0], a[1..];
      assert a + b == [c] + (rest + b);
      assert (a + b)[1..] == rest + b;
      if !Usable(c, taken, bad) {
        FreshConcat(abc, rest, b, taken, bad);
      } else {
        var more := taken + {c.norm};
        FreshConcat(abc, rest, b, more, bad);
        NormsCons(abc, c.text, Fresh(rest, more, bad));
        var x, y := Norms(abc, Fresh(rest, more, bad)), Norms(abc, [c.text] + Fresh(rest, more, bad));
        assert more + x == taken + y;
      }
    }
  }

  lemma NormsCons(abc: Alphabet, x: string, out: seq<string>)
    ensures Norms(abc, [x] + out) == {Norm(abc, x)} + Norms(abc, out)
  {
    var all := [x] + out;
    forall n ensures n in Norms(abc, all) <==> n == Norm(abc, x) || n in Norms(abc, out) {
      OfferedCons(abc, x, out, n);
      assert n in Norms(abc, all) <==> Offered(abc, all, n);
      assert n in Norms(abc, out) <==> Offered(abc, out, n);
    }
  }

  /** Forms that are all new come through as they are. */
  lemma {:induction false} FreshKeeps(abc: Alphabet, ss: seq<string>, taken: set<string>)
    requires AllNew(abc, ss, taken, Never()) && forall k | 0 <= k < |ss| :: Trim(ss[k]) == ss[k]
    ensures Fresh(FormsOf(abc, ss), taken, Never()) == ss
    decreases |ss|
  {
    if ss != [] {
      var rest := ss[1..];
      assert forall k | 0 <= k < |rest| :: rest[k] == ss[k + 1];
      assert AllNew(abc, rest, taken + {Norm(abc, ss[0])}, Never()) by {
        forall i | 0 <= i < |rest| ensures Norm(abc, rest[i]) !in taken + {Norm(abc, ss[0])} {
          assert Norm(abc, ss[0]) != Norm(abc, ss[i + 1]);
        }
      }
      FreshKeeps(abc, rest, taken + {Norm(abc, ss[0])});
      assert FormsOf(abc, ss)[1..] == FormsOf(abc, rest);
    }
  }

  lemma {:induction false} FreshTrimmed(abc: Alphabet, ss: seq<Form>, taken: set<string>, bad: string -> bool)
    requires forall k | 0 <= k < |ss| :: Trim(ss[k].text) == ss[k].text
    ensures forall x | x in Fresh(ss, taken, bad) :: Trim(x) == x
    decreases |ss|
  {
    if ss != [] {
      FreshTrimmed(abc, ss[1..], taken, bad);
      FreshTrimmed(abc, ss[1..], taken + {ss[0].norm}, bad);
    }
  }

  lemma {:induction false} FreshSource(forms: seq<Form>, taken: set<string>, bad: string -> bool, x: string)
    requires x in Fresh(forms, taken, bad)
    ensures exists k | 0 <= k < |forms| :: forms[k].text == x && forms[k].norm != ""
    decreases |forms|
  {
    var c, rest := forms[0], forms[1..];
    if Usable(c, taken, bad) && c.text == x {
      assert forms[0].text == x;
    } else {
      FreshSource(rest, if Usable(c, taken, bad) then taken + {c.norm} else taken, bad, x);
      var k :| 0 <= k < |rest| && rest[k].text == x && rest[k].norm != "";
      assert forms[k + 1] == rest[k];
    }
  }

  lemma DistractorsTrimmed(abc: Alphabet, t: Table, spell: Asked -> seq<string>)
    ensures forall d | d in Distractors(abc, t, spell) :: Trim(d) == d
  {
    var queues := Queues(abc, t, spell);
    var dealt := Dealt(queues, 0);
    forall k | 0 <= k < |dealt| ensures Trim(dealt[k].text) == dealt[k].text {
      assert dealt[k] in dealt;
      DealtIs(queues, 0, dealt[k]);
      var i, j :| 0 <= i && 0 <= j < |queues| && i < |queues[j]| && dealt[k] == queues[j][i];
      TrimTwice(spell(GradedCells(t)[j])[i]);
    }
    FreshTrimmed(abc, dealt, Taken(abc, t), Implausible(t.implausible));
  }

  /** The keys the bank offers, each once. */
  function BankKeys(abc: Alphabet, t: Table): seq<string> { Fresh(FormsOf(abc, KeyForms(GradedCells(t))), {}, Never()) }

  lemma BankKeysAreTaken(abc: Alphabet, t: Table)
    ensures forall n | n in Norms(abc, BankKeys(abc, t)) :: n in Taken(abc, t)
  {
    var cells, keys := GradedCells(t), BankKeys(abc, t);
    var forms := FormsOf(abc, KeyForms(cells));
    FormsFaithful(abc, KeyForms(cells));
    forall i | 0 <= i < |keys| ensures Norm(abc, keys[i]) in Taken(abc, t) {
      FreshSource(forms, {}, Never(), keys[i]);
      var k :| 0 <= k < |forms| && forms[k].text == keys[i] && forms[k].norm != "";
      NormAllIs(abc, CellForms(cells[k].cell), forms[k].norm);
      assert CellForms(cells[k].cell)[0] == cells[k].cell.value;
      KeysAreTaken(abc, t, cells[k], forms[k].norm);
    }
  }

  /** The bank is the keys, each once, and then exactly the distractors. */
  lemma BankParts(abc: Alphabet, t: Table, spell: Asked -> seq<string>)
    ensures BankForms(abc, t, spell) == BankKeys(abc, t) + Distractors(abc, t, spell)
  {
    var keys, ds := KeyForms(GradedCells(t)), Distractors(abc, t, spell);
    FormsOfConcat(abc, keys, ds);
    FormsFaithful(abc, keys);
    DistractorsAreNew(abc, t, spell);
    DistractorsTrimmed(abc, t, spell);
    FreshTail(abc, FormsOf(abc, keys), ds);
  }

  lemma FormsOfConcat(abc: Alphabet, a: seq<string>, b: seq<string>)
    ensures FormsOf(abc, a + b) == FormsOf(abc, a) + FormsOf(abc, b)
  {}

  lemma FreshTail(abc: Alphabet, a: seq<Form>, ds: seq<string>)
    requires Faithful(abc, a) && AllNew(abc, ds, Norms(abc, Fresh(a, {}, Never())), Never())
    requires forall d | d in ds :: Trim(d) == d
    ensures Fresh(a + FormsOf(abc, ds), {}, Never()) == Fresh(a, {}, Never()) + ds
  {
    var taken := Norms(abc, Fresh(a, {}, Never()));
    FreshConcat(abc, a, FormsOf(abc, ds), {}, Never());
    assert {} + taken == taken;
    FreshKeeps(abc, ds, taken);
  }

  lemma DistractorsAreNew(abc: Alphabet, t: Table, spell: Asked -> seq<string>)
    ensures AllNew(abc, Distractors(abc, t, spell), Norms(abc, BankKeys(abc, t)), Never())
  {
    DistractorsAreWrong(abc, t, spell);
    BankKeysAreTaken(abc, t);
  }

  /** The bank offers no form twice, offers the key of every graded cell and every distractor, and
      nothing beyond them. */
  lemma BankIs(abc: Alphabet, t: Table, spell: Asked -> seq<string>)
    requires Lawful(abc)
    ensures var bank := BankForms(abc, t, spell);
            && AllNew(abc, bank, {}, Never())
            && (forall c | c in GradedCells(t) :: InBank(abc, bank, c.cell.value))
            && (forall d | d in Distractors(abc, t, spell) :: InBank(abc, bank, d))
            && (forall f: string :: InBank(abc, bank, f) <==>
                  Offered(abc, BankKeys(abc, t), Norm(abc, f)) || Offered(abc, Distractors(abc, t, spell), Norm(abc, f)))
  {
    var keys, ds, bank := BankKeys(abc, t), Distractors(abc, t, spell), BankForms(abc, t, spell);
    var forms := KeyForms(GradedCells(t)) + ds;
    FormsFaithful(abc, forms);
    FreshIs(abc, FormsOf(abc, forms), {}, Never());
    BankParts(abc, t, spell);
    forall f: string ensures InBank(abc, bank, f) <==> Offered(abc, keys, Norm(abc, f)) || Offered(abc, ds, Norm(abc, f)) {
      OfferedConcat(abc, keys, ds, Norm(abc, f));
      assert InBank(abc, bank, f) <==> Offered(abc, bank, Norm(abc, f));
    }
    forall c | c in GradedCells(t) ensures InBank(abc, bank, c.cell.value) {
      var k :| 0 <= k < |GradedCells(t)| && GradedCells(t)[k] == c;
      OnlyGradedIs(AskedCells(t.rows, t.slots, |t.rows|), c);
      NormBlank(abc, c.cell.value);
      assert FormsOf(abc, forms)[k] == FormOf(abc, c.cell.value);
      assert Offered(abc, bank, FormsOf(abc, forms)[k].norm);
    }
    forall d | d in ds ensures InBank(abc, bank, d) {
      var i :| 0 <= i < |ds| && ds[i] == d;
      assert Norm(abc, ds[i]) == Norm(abc, d);
    }
  }

  lemma OfferedConcat(abc: Alphabet, a: seq<string>, b: seq<string>, norm: string)
    ensures Offered(abc, a + b, norm) <==> Offered(abc, a, norm) || Offered(abc, b, norm)
  {
    var all := a + b;
    if Offered(abc, all, norm) {
      var i :| 0 <= i < |all| && Norm(abc, all[i]) == norm;
      if i < |a| { assert a[i] == all[i]; } else { assert b[i - |a|] == all[i]; }
    }
    if Offered(abc, a, norm) {
      var i :| 0 <= i < |a| && Norm(abc, a[i]) == norm;
      assert all[i] == a[i];
    }
    if Offered(abc, b, norm) {
      var i :| 0 <= i < |b| && Norm(abc, b[i]) == norm;
      assert all[|a| + i] == b[i];
    }
  }
}
