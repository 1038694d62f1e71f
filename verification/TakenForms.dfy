/** Which forms a distractor must not be, and in which order the others are offered. */
module TakenForms {
  import opened Tokens
  import opened InflectionTable
  import opened Bank

  // ----- Forms that are taken -----

  lemma {:induction false} UnionFrom<T>(f: T -> set<string>, xs: seq<T>, n: nat, x: string) returns (k: nat)
    requires n <= |xs| && x in UnionOf(f, xs, n)
    ensures k < n && x in f(xs[k])
  {
    if x in f(xs[n - 1]) { k := n - 1; } else { k := UnionFrom(f, xs, n - 1, x); }
  }

  lemma UnionIs<T>(f: T -> set<string>, xs: seq<T>, x: string)
    ensures x in UnionOf(f, xs, |xs|) <==> exists k | 0 <= k < |xs| :: x in f(xs[k])
  {
    if x in UnionOf(f, xs, |xs|) { var k := UnionFrom(f, xs, |xs|, x); }
    if k :| 0 <= k < |xs| && x in f(xs[k]) { UnionHas(f, xs, |xs|, k, x); }
  }

  /** The form ends in the swap's ending, with something before it, and has the other one instead.  An
      empty ending cuts everything off, not nothing. */
  ghost predicate Swapped(n: string, swap: (string, string), x: string) {
    exists stem: string :: stem != "" && n == stem + swap.0 && x == (if swap.0 == "" then "" else stem) + swap.1
  }

  lemma SwapIs(n: string, swap: (string, string), x: string)
    ensures x in SwapIn(n)(swap) <==> Swapped(n, swap, x)
  {
    if x in SwapIn(n)(swap) {
      var stem := n[..|n| - |swap.0|];
      assert n == stem + swap.0 && stem != "";
    }
    if Swapped(n, swap, x) {
      var stem :| stem != "" && n == stem + swap.0 && x == (if swap.0 == "" then "" else stem) + swap.1;
      assert n[|n| - |swap.0|..] == swap.0 && n[..|n| - |swap.0|] == stem;
    }
  }

  /** The form itself, as it is compared, or what a swap of its slot makes of it. */
  ghost predicate Stands(abc: Alphabet, slot: Slot, form: string, x: string) {
    var n := Norm(abc, form);
    n != "" && (x == n || exists k | 0 <= k < |slot.swaps| :: Swapped(n, slot.swaps[k], x))
  }

  lemma FormTakenIs(abc: Alphabet, slot: Slot, form: string, x: string)
    ensures x in FormTaken(abc, slot)(form) <==> Stands(abc, slot, form, x)
  {
    var n := Norm(abc, form);
    UnionIs(SwapIn(n), slot.swaps, x);
    forall k | 0 <= k < |slot.swaps| ensures x in SwapIn(n)(slot.swaps[k]) <==> Swapped(n, slot.swaps[k], x) {
      SwapIs(n, slot.swaps[k], x);
    }
  }

  /** Some form of this cell, its key or a variant, is the form or makes it. */
  ghost predicate CellTakes(abc: Alphabet, row: Row, slot: Slot, x: string) {
    slot.id in row.cells && exists i | 0 <= i < |CellForms(row.cells[slot.id])| :: Stands(abc, slot, CellForms(row.cells[slot.id])[i], x)
  }

  lemma SlotTakenIs(abc: Alphabet, row: Row, slot: Slot, x: string)
    ensures x in SlotTaken(abc, row)(slot) <==> CellTakes(abc, row, slot, x)
  {
    if slot.id in row.cells {
      var forms := CellForms(row.cells[slot.id]);
      UnionIs(FormTaken(abc, slot), forms, x);
      forall i | 0 <= i < |forms| ensures x in FormTaken(abc, slot)(forms[i]) <==> Stands(abc, slot, forms[i], x) {
        FormTakenIs(abc, slot, forms[i], x);
      }
    }
  }

  ghost predicate RowTakes(abc: Alphabet, slots: seq<Slot>, row: Row, x: string) {
    exists s | 0 <= s < |slots| :: CellTakes(abc, row, slots[s], x)
  }

  /** Taken is every form of every cell, asked or given, and what the swaps of its slot make of it. */
  lemma TakenIs(abc: Alphabet, t: Table, x: string)
    ensures x in Taken(abc, t) <==> exists r | 0 <= r < |t.rows| :: RowTakes(abc, t.slots, t.rows[r], x)
  {
    UnionIs(RowTaken(abc, t.slots), t.rows, x);
    forall r | 0 <= r < |t.rows| ensures x in RowTaken(abc, t.slots)(t.rows[r]) <==> RowTakes(abc, t.slots, t.rows[r], x) {
      UnionIs(SlotTaken(abc, t.rows[r]), t.slots, x);
      forall s | 0 <= s < |t.slots| ensures x in SlotTaken(abc, t.rows[r])(t.slots[s]) <==> CellTakes(abc, t.rows[r], t.slots[s], x) {
        SlotTakenIs(abc, t.rows[r], t.slots[s], x);
      }
    }
  }

  /** A form is implausible when one of the listed spellings stands somewhere in it. */
  lemma ImplausibleIs(parts: seq<string>, n: string)
    ensures Implausible(parts)(n) <==> exists k, a: string, b: string | 0 <= k < |parts| :: n == a + parts[k] + b
  {
    if Implausible(parts)(n) {
      var k :| 0 <= k < |parts| && Contains(n, parts[k]);
      var i :| 0 <= i <= |n| && StandsAt(n, parts[k], i);
      assert n == n[..i] + parts[k] + n[i + |parts[k]|..];
    }
    if k, a: string, b: string :| 0 <= k < |parts| && n == a + parts[k] + b {
      assert StandsAt(n, parts[k], |a|);
      assert Contains(n, parts[k]);
    }
  }

  // ----- The order of dealing -----

  /** How many candidates stand in the rounds before `i`, from `round` on. */
  function Before(queues: seq<seq<Form>>, round: nat, i: nat): nat
    requires round <= i
    decreases i - round
  {
    if round == i then 0 else |Round(queues, round, 0)| + Before(queues, round + 1, i)
  }

  /** Where queue `j` stands in a round that begins with queue `k`. */
  function Place(queues: seq<seq<Form>>, round: nat, k: nat, j: nat): nat
    requires k <= j <= |queues|
    decreases j - k
  {
    if k == j then 0 else (if round < |queues[k]| then 1 else 0) + Place(queues, round, k + 1, j)
  }

  lemma {:induction false} RoundAt(queues: seq<seq<Form>>, round: nat, k: nat, j: nat)
    requires k <= j < |queues| && round < |queues[j]|
    ensures var p := Place(queues, round, k, j); p < |Round(queues, round, k)| && Round(queues, round, k)[p] == queues[j][round]
    decreases j - k
  {
    if k < j { RoundAt(queues, round, k + 1, j); }
  }

  /** Candidates are dealt round by round, and in a round queue by queue: before the `i`-th of queue `j`
      stand exactly those of earlier rounds and those of earlier queues in its own. */
  lemma {:induction false} DealtAt(queues: seq<seq<Form>>, round: nat, i: nat, j: nat)
    requires round <= i && j < |queues| && i < |queues[j]|
    ensures var p := Before(queues, round, i) + Place(queues, i, 0, j);
            p < |Dealt(queues, round)| && Dealt(queues, round)[p] == queues[j][i]
    decreases i - round
  {
    assert AnyLonger(queues, round);
    if round == i { RoundAt(queues, i, 0, j); } else { DealtAt(queues, round + 1, i, j); }
  }

  // ----- The order of what comes through -----

  /** Position `p` holds a form that may come through, and none of its kind stands before it. */
  predicate FirstUsable(forms: seq<Form>, taken: set<string>, bad: string -> bool, p: nat) {
    p < |forms| && Usable(forms[p], taken, bad) && forall i | 0 <= i < p :: forms[i].norm != forms[p].norm
  }

  predicate Rising(at: seq<nat>) { forall k, l | 0 <= k < l < |at| :: at[k] < at[l] }

  /** `out` are the texts at these positions, which rise and are first of their kind. */
  predicate Picks(forms: seq<Form>, taken: set<string>, bad: string -> bool, out: seq<string>, at: seq<nat>) {
    && |at| == |out| && Rising(at)
    && forall k | 0 <= k < |at| :: FirstUsable(forms, taken, bad, at[k]) && out[k] == forms[at[k]].text
  }

  function OneOn(at: seq<nat>): (out: seq<nat>)
    ensures |out| == |at|
  {
    seq(|at|, k requires 0 <= k < |at| => at[k] + 1)
  }

  lemma PicksBehind(forms: seq<Form>, taken: set<string>, more: set<string>, bad: string -> bool, out: seq<string>, at: seq<nat>)
    requires forms != [] && Picks(forms[1..], more, bad, out, at)
    requires more == if Usable(forms[0], taken, bad) then taken + {forms[0].norm} else taken
    ensures Picks(forms, taken, bad, out, OneOn(at))
  {
    forall k | 0 <= k < |at| ensures FirstUsable(forms, taken, bad, at[k] + 1) && out[k] == forms[at[k] + 1].text {
      FirstBehind(forms, taken, more, bad, at[k]);
    }
  }

  lemma PicksFirst(forms: seq<Form>, taken: set<string>, bad: string -> bool, out: seq<string>, at: seq<nat>)
    requires forms != [] && Usable(forms[0], taken, bad) && Picks(forms, taken, bad, out, at) && forall k | 0 <= k < |at| :: at[k] > 0
    ensures Picks(forms, taken, bad, [forms[0].text] + out, [0] + at)
  {
    var texts, all := [forms[0].text] + out, [0] + at;
    forall k | 0 <= k < |all| ensures FirstUsable(forms, taken, bad, all[k]) && texts[k] == forms[all[k]].text {
      if k > 0 { assert all[k] == at[k - 1] && texts[k] == out[k - 1]; }
    }
    forall k, l | 0 <= k < l < |all| ensures all[k] < all[l] {
      assert all[l] == at[l - 1];
      if k > 0 { assert all[k] == at[k - 1]; }
    }
  }

  /** What comes through are candidates in their order, each the first of its kind that is usable. */
  lemma {:induction false} FreshInOrder(forms: seq<Form>, taken: set<string>, bad: string -> bool) returns (at: seq<nat>)
    ensures Picks(forms, taken, bad, Fresh(forms, taken, bad), at)
    decreases |forms|
  {
    if forms == [] {
      at := [];
    } else {
      var usable := Usable(forms[0], taken, bad);
      var more := if usable then taken + {forms[0].norm} else taken;
      var later := FreshInOrder(forms[1..], more, bad);
      var out := Fresh(forms[1..], more, bad);
      PicksBehind(forms, taken, more, bad, out, later);
      if usable { PicksFirst(forms, taken, bad, out, OneOn(later)); }
      at := if usable then [0] + OneOn(later) else OneOn(later);
    }
  }

  lemma FirstBehind(forms: seq<Form>, taken: set<string>, more: set<string>, bad: string -> bool, p: nat)
    requires forms != [] && FirstUsable(forms[1..], more, bad, p)
    requires more == if Usable(forms[0], taken, bad) then taken + {forms[0].norm} else taken
    ensures FirstUsable(forms, taken, bad, p + 1)
  {
    forall i | 0 <= i < p + 1 ensures forms[i].norm != forms[p + 1].norm {
      if i > 0 { assert forms[i] == forms[1..][i - 1]; }
    }
  }

  /** The distractors are the first that come through, as many as the author asked for; none without a
      paradigm, and none for a number that is not positive. */
  lemma DistractorsAreFirst(abc: Alphabet, t: Table, spell: Asked -> seq<string>)
    ensures var usable, ds := Fresh(Dealt(Queues(abc, t, spell), 0), Taken(abc, t), Implausible(t.implausible)), Distractors(abc, t, spell);
            && (t.hasPack && t.bankExtra > 0 ==> ds == if |usable| <= t.bankExtra then usable else usable[..t.bankExtra])
            && (!t.hasPack || t.bankExtra <= 0 ==> ds == [])
  {}
}
