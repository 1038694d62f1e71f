/** When two stretches that differ are one word-order mistake. */
module WordOrder {
  import opened Options
  import opened Text
  import opened Alignment
  import opened Spans
  import opened Judging

  // ----- Bare words -----

  predicate IsOpening(c: char) { c in "«\"'([" }

  predicate IsClosing(c: char) { c in "»\"'.,;:!?)]" }

  /** The bare word is what is left, lower-cased, once the opening marks in front and the closing
      marks behind are gone. */
  lemma BareIs(word: string, lower: string -> string) returns (i: nat, j: nat)
    ensures i <= j <= |word| && Bare(word, lower) == lower(word[i..j])
    ensures (forall k | 0 <= k < i :: IsOpening(word[k])) && (i < |word| ==> !IsOpening(word[i]))
    ensures (forall k | j <= k < |word| :: IsClosing(word[k])) && (i < j ==> !IsClosing(word[j - 1]))
  {
    i := StartIs(word);
    var n := EndIs(word[i..]);
    j := i + n;
    assert word[i..][..n] == word[i..j];
    forall k | j <= k < |word| ensures IsClosing(word[k]) { assert word[i..][k - i] == word[k]; }
  }

  lemma {:induction false} StartIs(s: string) returns (i: nat)
    ensures i <= |s| && StripStart(s) == s[i..]
    ensures (forall k | 0 <= k < i :: IsOpening(s[k])) && (i < |s| ==> !IsOpening(s[i]))
  {
    if s != "" && s[0] in OPENING {
      i := StartIs(s[1..]);
      i := i + 1;
    } else {
      i := 0;
    }
  }

  lemma {:induction false} EndIs(s: string) returns (n: nat)
    ensures n <= |s| && StripEnd(s) == s[..n]
    ensures (forall k | n <= k < |s| :: IsClosing(s[k])) && (n > 0 ==> !IsClosing(s[n - 1]))
    decreases |s|
  {
    if s != "" && s[|s| - 1] in CLOSING {
      n := EndIs(s[..|s| - 1]);
      assert s[..|s| - 1][..n] == s[..n];
    } else {
      n := |s|;
    }
  }

  /** The bare words of a list, each as often as it stands there. */
  ghost function BareWords(ws: seq<string>, lower: string -> string): multiset<string> { multiset(BareList(ws, lower)) }

  function BareList(ws: seq<string>, lower: string -> string): seq<string> {
    seq(|ws|, k requires 0 <= k < |ws| => Bare(ws[k], lower))
  }

  lemma {:induction false} BaresAre(ws: seq<string>, lower: string -> string)
    ensures Bares(ws, lower) == BareWords(ws, lower)
  {
    if ws != [] {
      BaresAre(ws[1..], lower);
      assert BareList(ws, lower) == [Bare(ws[0], lower)] + BareList(ws[1..], lower);
    }
  }

  // ----- Which runs are one mistake -----

  /** The next run starts at most two words behind the last one, and from the first run to the next
      the two sides hold the same bare words. */
  ghost predicate OneMistake(first: Group, last: Group, next: Group, w: seq<string>, r: seq<string>, lower: string -> string) {
    && next.wFrom - last.wTo <= 2
    && first.wFrom <= next.wTo <= |w| && first.rFrom <= next.rTo <= |r|
    && BareWords(w[first.wFrom..next.wTo], lower) == BareWords(r[first.rFrom..next.rTo], lower)
  }

  /** The run that the mistake of run `m` begins with: read from the left, a run joins the mistake
      before it as soon as the two are one. */
  ghost function FirstRun(raw: seq<Group>, m: nat, w: seq<string>, r: seq<string>, lower: string -> string): (f: nat)
    requires m < |raw|
    ensures f <= m
  {
    if m == 0 then 0
    else
      var f := FirstRun(raw, m - 1, w, r, lower);
      if OneMistake(raw[f], raw[m - 1], raw[m], w, r, lower) then f else m
  }

  /** No later run joins the mistake of run `m`. */
  ghost predicate LastRun(raw: seq<Group>, m: nat, w: seq<string>, r: seq<string>, lower: string -> string)
    requires m < |raw|
  {
    m + 1 == |raw| || FirstRun(raw, m + 1, w, r, lower) == m + 1
  }

  /** The mistake of run `m` up to that run; a word-order mistake when it has more runs than one. */
  ghost function MistakeOf(raw: seq<Group>, m: nat, w: seq<string>, r: seq<string>, lower: string -> string): Group
    requires m < |raw|
  {
    var f := FirstRun(raw, m, w, r, lower);
    Group(raw[f].wFrom, raw[m].wTo, raw[f].rFrom, raw[m].rTo, f < m)
  }

  /** The mistakes that end with run `m` or a later one. */
  ghost function Mistakes(raw: seq<Group>, m: nat, w: seq<string>, r: seq<string>, lower: string -> string): seq<Group>
    requires m <= |raw|
    decreases |raw| - m
  {
    if m == |raw| then []
    else
      var rest := Mistakes(raw, m + 1, w, r, lower);
      if LastRun(raw, m, w, r, lower) then [MistakeOf(raw, m, w, r, lower)] + rest else rest
  }

  /** A run of its own, not flagged by anyone, with both its ranges in the sentences. */
  ghost predicate PlainRuns(raw: seq<Group>, w: seq<string>, r: seq<string>) {
    && (forall k | 0 <= k < |raw| :: raw[k].wFrom <= raw[k].wTo <= |w| && raw[k].rFrom <= raw[k].rTo <= |r| && !raw[k].order)
    && (forall k, l | 0 <= k < l < |raw| :: raw[k].wTo < raw[l].wFrom && raw[k].rTo <= raw[l].rFrom)
  }

  lemma MergeableIs(raw: seq<Group>, m: nat, w: seq<string>, r: seq<string>, lower: string -> string)
    requires PlainRuns(raw, w, r) && m + 1 < |raw|
    ensures var f := FirstRun(raw, m, w, r, lower);
            Mergeable(MistakeOf(raw, m, w, r, lower), raw[m + 1], w, r, lower) <==> OneMistake(raw[f], raw[m], raw[m + 1], w, r, lower)
  {
    var f := FirstRun(raw, m, w, r, lower);
    var a, b := w[raw[f].wFrom..raw[m + 1].wTo], r[raw[f].rFrom..raw[m + 1].rTo];
    BaresAre(a, lower);
    BaresAre(b, lower);
  }

  lemma {:induction false} MergeIs(raw: seq<Group>, m: nat, w: seq<string>, r: seq<string>, lower: string -> string)
    requires PlainRuns(raw, w, r) && m < |raw|
    ensures MergeFrom(MistakeOf(raw, m, w, r, lower), raw, m + 1, w, r, lower) == Mistakes(raw, m, w, r, lower)
    decreases |raw| - m
  {
    var cur := MistakeOf(raw, m, w, r, lower);
    if m + 1 < |raw| {
      MergeableIs(raw, m, w, r, lower);
      MergeIs(raw, m + 1, w, r, lower);
      var next := MistakeOf(raw, m + 1, w, r, lower);
      assert next == if Mergeable(cur, raw[m + 1], w, r, lower) then Fuse(cur, raw[m + 1]) else raw[m + 1];
    } else {
      assert Mistakes(raw, m + 1, w, r, lower) == [];
    }
  }

  lemma {:induction false} TilesPlain(gs: seq<Group>, w: seq<string>, r: seq<string>, i: nat, j: nat)
    requires Tiles(gs, w, r, i, j) && forall g | g in gs :: !g.order
    ensures PlainRuns(gs, w, r)
    decreases |gs|
  {
    forall k | 0 <= k < |gs|
      ensures gs[k].wFrom <= gs[k].wTo <= |w| && gs[k].rFrom <= gs[k].rTo <= |r| && !gs[k].order
    {
      TilesFit(gs, w, r, i, j, k);
      assert gs[k] in gs;
    }
    forall k, l | 0 <= k < l < |gs| ensures gs[k].wTo < gs[l].wFrom && gs[k].rTo <= gs[l].rFrom { TilesApart(gs, w, r, i, j, k, l); }
  }

  lemma {:induction false} TilesApart(gs: seq<Group>, w: seq<string>, r: seq<string>, i: nat, j: nat, k: nat, l: nat)
    requires Tiles(gs, w, r, i, j) && k < l < |gs|
    ensures gs[k].wTo < gs[l].wFrom && gs[k].rTo <= gs[l].rFrom
    decreases |gs|
  {
    if k > 0 {
      TilesApart(gs[1..], w, r, gs[0].wTo, gs[0].rTo, k - 1, l - 1);
    } else {
      TilesFit(gs[1..], w, r, gs[0].wTo, gs[0].rTo, l - 1);
      if l > 1 { TilesApart(gs[1..], w, r, gs[0].wTo, gs[0].rTo, 0, l - 1); }
    }
  }

  lemma RunsArePlain(w: seq<string>, r: seq<string>, check: Check, lower: string -> string)
    ensures PlainRuns(RawOf(w, r, check, lower), w, r)
  {
    SpansArePatch(w, r, check, lower);
    RawNotOrder(Walk(Literal(check, lower), w, r, 0, 0), None, w, r);
    TilesPlain(RawOf(w, r, check, lower), w, r, 0, 0);
  }

  /** The derived groups are the mistakes made of the runs, read from the left. */
  lemma GroupsAreMistakes(w: seq<string>, r: seq<string>, check: Check, lower: string -> string)
    ensures GroupsOf(w, r, check, lower) == Mistakes(RawOf(w, r, check, lower), 0, w, r, lower)
  {
    var raw := RawOf(w, r, check, lower);
    RunsArePlain(w, r, check, lower);
    if raw != [] { MergeIs(raw, 0, w, r, lower); }
  }

  // ----- Neighbouring runs -----

  lemma {:induction false} FirstBetween(raw: seq<Group>, k: nat, m: nat, w: seq<string>, r: seq<string>, lower: string -> string)
    requires k <= m < |raw| && FirstRun(raw, m, w, r, lower) <= k
    ensures FirstRun(raw, k, w, r, lower) == FirstRun(raw, m, w, r, lower)
  {
    if k < m { FirstBetween(raw, k, m - 1, w, r, lower); }
  }

  /** The last run of the mistake of run `m`. */
  lemma {:induction false} EndOf(raw: seq<Group>, m: nat, w: seq<string>, r: seq<string>, lower: string -> string) returns (e: nat)
    requires m < |raw|
    ensures m <= e < |raw| && LastRun(raw, e, w, r, lower) && FirstRun(raw, e, w, r, lower) == FirstRun(raw, m, w, r, lower)
    ensures m + 1 < |raw| && FirstRun(raw, m + 1, w, r, lower) != m + 1 ==> m < e
    decreases |raw| - m
  {
    if LastRun(raw, m, w, r, lower) { e := m; } else { e := EndOf(raw, m + 1, w, r, lower); }
  }

  lemma {:induction false} MistakesHave(raw: seq<Group>, n: nat, m: nat, w: seq<string>, r: seq<string>, lower: string -> string)
    requires n <= m < |raw| && LastRun(raw, m, w, r, lower)
    ensures MistakeOf(raw, m, w, r, lower) in Mistakes(raw, n, w, r, lower)
    decreases m - n
  {
    if n < m { MistakesHave(raw, n + 1, m, w, r, lower); }
  }

  lemma {:induction false} MistakesFrom(raw: seq<Group>, n: nat, w: seq<string>, r: seq<string>, lower: string -> string, g: Group) returns (m: nat)
    requires n <= |raw| && g in Mistakes(raw, n, w, r, lower)
    ensures n <= m < |raw| && LastRun(raw, m, w, r, lower) && g == MistakeOf(raw, m, w, r, lower)
    decreases |raw| - n
  {
    if g in Mistakes(raw, n + 1, w, r, lower) { m := MistakesFrom(raw, n + 1, w, r, lower, g); } else { m := n; }
  }

  predicate Holds(g: Group, run: Group) {
    g.wFrom <= run.wFrom && run.wTo <= g.wTo && g.rFrom <= run.rFrom && run.rTo <= g.rTo
  }

  lemma MistakeHolds(raw: seq<Group>, m: nat, k: nat, w: seq<string>, r: seq<string>, lower: string -> string)
    requires PlainRuns(raw, w, r) && m < |raw| && k < |raw|
    ensures Holds(MistakeOf(raw, m, w, r, lower), raw[k]) <==> FirstRun(raw, m, w, r, lower) <= k <= m
  {}

  /** Two neighbouring runs end in one group, flagged as a word-order mistake, exactly when they
      start at most two words apart and both sides hold the same bare words, read from the first run
      of that group on. */
  lemma RunsJoin(w: seq<string>, r: seq<string>, check: Check, lower: string -> string, m: nat)
    requires m + 1 < |RawOf(w, r, check, lower)|
    ensures var raw := RawOf(w, r, check, lower);
            var first := raw[FirstRun(raw, m, w, r, lower)];
            Joined(GroupsOf(w, r, check, lower), raw[m], raw[m + 1]) <==> OneMistake(first, raw[m], raw[m + 1], w, r, lower)
  {
    GroupsAreMistakes(w, r, check, lower);
    RunsArePlain(w, r, check, lower);
    MistakesJoin(RawOf(w, r, check, lower), m, w, r, lower);
  }

  /** Some mistake with more runs than one holds both. */
  ghost predicate Joined(gs: seq<Group>, a: Group, b: Group) { exists g | g in gs :: g.order && Holds(g, a) && Holds(g, b) }

  lemma MistakesJoin(raw: seq<Group>, m: nat, w: seq<string>, r: seq<string>, lower: string -> string)
    requires PlainRuns(raw, w, r) && m + 1 < |raw|
    ensures Joined(Mistakes(raw, 0, w, r, lower), raw[m], raw[m + 1]) <==> FirstRun(raw, m + 1, w, r, lower) != m + 1
  {
    var gs := Mistakes(raw, 0, w, r, lower);
    if FirstRun(raw, m + 1, w, r, lower) != m + 1 {
      var e := EndOf(raw, m, w, r, lower);
      MistakesHave(raw, 0, e, w, r, lower);
      MistakeHolds(raw, e, m, w, r, lower);
      MistakeHolds(raw, e, m + 1, w, r, lower);
    }
    if Joined(gs, raw[m], raw[m + 1]) {
      var g :| g in gs && g.order && Holds(g, raw[m]) && Holds(g, raw[m + 1]);
      var e := MistakesFrom(raw, 0, w, r, lower, g);
      MistakeHolds(raw, e, m, w, r, lower);
      MistakeHolds(raw, e, m + 1, w, r, lower);
      FirstBetween(raw, m + 1, e, w, r, lower);
    }
  }

  /** The run that the group `next` begins with is not one mistake with the group `g`. */
  ghost predicate StayApart(raw: seq<Group>, g: Group, next: Group, w: seq<string>, r: seq<string>, lower: string -> string) {
    exists run | run in raw ::
      run.wFrom == next.wFrom && run.rFrom == next.rFrom && !OneMistake(g, g, run, w, r, lower)
  }

  lemma {:induction false} MistakesApart(raw: seq<Group>, n: nat, w: seq<string>, r: seq<string>, lower: string -> string, t: nat)
    requires n <= |raw| && t + 1 < |Mistakes(raw, n, w, r, lower)|
    ensures var gs := Mistakes(raw, n, w, r, lower); StayApart(raw, gs[t], gs[t + 1], w, r, lower)
    decreases |raw| - n
  {
    if !LastRun(raw, n, w, r, lower) {
      MistakesApart(raw, n + 1, w, r, lower, t);
    } else if t > 0 {
      MistakesApart(raw, n + 1, w, r, lower, t - 1);
    } else {
      FirstOfMistakes(raw, n + 1, w, r, lower);
      assert raw[n + 1] in raw;
    }
  }

  lemma {:induction false} FirstOfMistakes(raw: seq<Group>, n: nat, w: seq<string>, r: seq<string>, lower: string -> string)
    requires n < |raw|
    ensures var gs, f := Mistakes(raw, n, w, r, lower), raw[FirstRun(raw, n, w, r, lower)];
            gs != [] && gs[0].wFrom == f.wFrom && gs[0].rFrom == f.rFrom
    decreases |raw| - n
  {
    if !LastRun(raw, n, w, r, lower) { FirstOfMistakes(raw, n + 1, w, r, lower); }
  }

  /** No merge was missed between two groups that follow each other. */
  lemma NoMergeMissed(w: seq<string>, r: seq<string>, check: Check, lower: string -> string, t: nat)
    requires t + 1 < |GroupsOf(w, r, check, lower)|
    ensures var gs := GroupsOf(w, r, check, lower); StayApart(RawOf(w, r, check, lower), gs[t], gs[t + 1], w, r, lower)
  {
    GroupsAreMistakes(w, r, check, lower);
    MistakesApart(RawOf(w, r, check, lower), 0, w, r, lower, t);
  }

  // ----- The spans shown to the author -----

  /** A span stands where its group does, reads as the two sentences read there, is an order mistake
      when the group is one, and is soft when an override is filed under its place and wording. */
  lemma SpansAre(item: Item, check: Check, lower: string -> string, k: nat)
    requires k < |SpansOf(item, check, lower)|
    ensures var w, r := Fields(item.wrong), KeyWords(item);
            var gs, span := GroupsOf(w, r, check, lower), SpansOf(item, check, lower)[k];
            && |gs| == |SpansOf(item, check, lower)|
            && span.wFrom == gs[k].wFrom <= span.wTo == gs[k].wTo <= |w|
            && span.rFrom == gs[k].rFrom <= span.rTo == gs[k].rTo <= |r|
            && Fields(span.wrong) == w[span.wFrom..span.wTo] && Fields(span.fix) == r[span.rFrom..span.rTo]
            && span.wrong == Join(w[span.wFrom..span.wTo]) && span.fix == Join(r[span.rFrom..span.rTo])
            && (span.order <==> gs[k].order)
            && (span.soft <==> SpanKey(span.wFrom, span.wTo, span.fix) in item.soft)
  {
    var w, r := Words(item.wrong), KeyWords(item);
    WordsAreFields(item.wrong);
    WordsAreFields(Variants(item)[0]);
    SpansArePatch(w, r, check, lower);
    TilesFit(GroupsOf(w, r, check, lower), w, r, 0, 0, k);
    var span := SpansOf(item, check, lower)[k];
    SliceReads(w, span.wFrom, span.wTo);
    SliceReads(r, span.rFrom, span.rTo);
  }

  lemma SliceReads(ws: seq<string>, i: nat, j: nat)
    requires AllClean(ws) && i <= j <= |ws|
    ensures Fields(Join(ws[i..j])) == ws[i..j]
  {
    forall x | x in ws[i..j] ensures Clean(x) { assert x in ws; }
    JoinRoundTrip(ws[i..j]);
  }

  /** There is a span exactly when both sentences have words and their words differ. */
  lemma SpansExist(item: Item, check: Check, lower: string -> string)
    ensures SpansOf(item, check, lower) != [] <==>
              Fields(item.wrong) != [] && KeyWords(item) != [] && Fields(item.wrong) != KeyWords(item)
  {
    WordsAreFields(item.wrong);
    SpansArePatch(Words(item.wrong), KeyWords(item), check, lower);
  }

  /** The hard spans are the others than the soft ones, in order. */
  lemma {:induction false} HardAre(spans: seq<Span>, span: Span)
    ensures span in HardOf(spans) <==> span in spans && !span.soft
    ensures multiset(HardOf(spans)) <= multiset(spans)
  {
    if spans != [] {
      HardAre(spans[1..], span);
      assert spans == [spans[0]] + spans[1..];
    }
  }

  // ----- Runs are read from the left -----

  const FAULTY := ["p", "c", "d", "e", "p"]
  const KEY := ["c", "p", "d", "e"]

  /** The pairs are judged with what was joined before them: `p c d e p` against `c p d e` has three
      runs, the second fits the first as well as the third, and only the first two become one. */
  lemma MiddleRunGoesLeft(check: Check, lower: string -> string)
    requires !check.caseInsensitive
    ensures var raw := RawOf(FAULTY, KEY, check, lower);
            && raw == [Group(0, 1, 0, 0, false), Group(2, 2, 1, 2, false), Group(4, 5, 4, 4, false)]
            && OneMistake(raw[1], raw[1], raw[2], FAULTY, KEY, lower)
            && GroupsOf(FAULTY, KEY, check, lower) == [Group(0, 2, 0, 2, true), Group(4, 5, 4, 4, false)]
  {
    var rel := Literal(check, lower);
    MiddleWalk(rel);
    MiddleRuns(Walk(rel, FAULTY, KEY, 0, 0));
    MiddleWords(lower);
    GroupsAreMistakes(FAULTY, KEY, check, lower);
    MiddleMistakes(RawOf(FAULTY, KEY, check, lower), FAULTY, KEY, lower);
  }

  lemma MiddleMistakes(raw: seq<Group>, w: seq<string>, r: seq<string>, lower: string -> string)
    requires raw == [Group(0, 1, 0, 0, false), Group(2, 2, 1, 2, false), Group(4, 5, 4, 4, false)]
    requires OneMistake(raw[0], raw[0], raw[1], w, r, lower) && !OneMistake(raw[0], raw[1], raw[2], w, r, lower)
    ensures Mistakes(raw, 0, w, r, lower) == [Group(0, 2, 0, 2, true), Group(4, 5, 4, 4, false)]
  {
    assert FirstRun(raw, 0, w, r, lower) == 0;
    assert FirstRun(raw, 1, w, r, lower) == 0;
    assert FirstRun(raw, 2, w, r, lower) == 2;
    assert Mistakes(raw, 3, w, r, lower) == [];
    assert Mistakes(raw, 2, w, r, lower) == [Group(4, 5, 4, 4, false)];
    assert Mistakes(raw, 1, w, r, lower) == [Group(0, 2, 0, 2, true), Group(4, 5, 4, 4, false)];
  }

  ghost predicate Equality(rel: (string, string) -> bool) { forall a, b :: rel(a, b) <==> a == b }

  /** The cells of the table the walk looks at. */
  lemma MiddleTable(rel: (string, string) -> bool)
    requires Equality(rel)
    ensures Lcs(rel, FAULTY, KEY, 1, 0) == 3 == Lcs(rel, FAULTY, KEY, 0, 1)
    ensures Lcs(rel, FAULTY, KEY, 3, 1) == 1 && Lcs(rel, FAULTY, KEY, 2, 2) == 2
  {
    var w, r := FAULTY, KEY;
    assert Lcs(rel, w, r, 4, 3) == 0 && Lcs(rel, w, r, 4, 2) == 0 && Lcs(rel, w, r, 4, 1) == 1;
    assert Lcs(rel, w, r, 3, 3) == 1 && Lcs(rel, w, r, 3, 2) == 1 && Lcs(rel, w, r, 3, 1) == 1;
    assert Lcs(rel, w, r, 2, 3) == 1 && Lcs(rel, w, r, 2, 2) == 2 && Lcs(rel, w, r, 2, 1) == 2;
    assert Lcs(rel, w, r, 1, 3) == 1 && Lcs(rel, w, r, 1, 2) == 2;
  }

  lemma MiddleWalk(rel: (string, string) -> bool)
    requires Equality(rel)
    ensures Walk(rel, FAULTY, KEY, 0, 0) == [OnlyA(0, 0), Both(1, 0), OnlyB(2, 1), Both(2, 2), Both(3, 3), OnlyA(4, 4)]
  {
    var w, r := FAULTY, KEY;
    MiddleTable(rel);
    assert Walk(rel, w, r, 5, 4) == [];
    assert Walk(rel, w, r, 4, 4) == [OnlyA(4, 4)];
    assert Walk(rel, w, r, 3, 3) == [Both(3, 3), OnlyA(4, 4)];
    assert Walk(rel, w, r, 2, 2) == [Both(2, 2), Both(3, 3), OnlyA(4, 4)];
    assert Walk(rel, w, r, 2, 1) == [OnlyB(2, 1)] + Walk(rel, w, r, 2, 2);
    assert Walk(rel, w, r, 1, 0) == [Both(1, 0)] + Walk(rel, w, r, 2, 1);
    assert Walk(rel, w, r, 0, 0) == [OnlyA(0, 0)] + Walk(rel, w, r, 1, 0);
  }

  lemma MiddleRuns(ops: seq<Op>)
    requires ops == [OnlyA(0, 0), Both(1, 0), OnlyB(2, 1), Both(2, 2), Both(3, 3), OnlyA(4, 4)]
    ensures RawGroups(ops, None, FAULTY, KEY) == [Group(0, 1, 0, 0, false), Group(2, 2, 1, 2, false), Group(4, 5, 4, 4, false)]
  {
    var w, r := FAULTY, KEY;
    var third := Group(4, 5, 4, 4, false);
    assert ops[6..] == [] && ops[5..][1..] == ops[6..] && ops[4..][1..] == ops[5..] && ops[3..][1..] == ops[4..];
    assert ops[2..][1..] == ops[3..] && ops[1..][1..] == ops[2..];
    assert RawGroups(ops[6..], Some(third), w, r) == [third];
    assert RawGroups(ops[5..], None, w, r) == [third];
    assert RawGroups(ops[4..], None, w, r) == [third];
    assert RawGroups(ops[3..], Some(Group(2, 2, 1, 2, false)), w, r) == [Group(2, 2, 1, 2, false), third];
    assert RawGroups(ops[2..], None, w, r) == [Group(2, 2, 1, 2, false), third];
    assert RawGroups(ops[1..], Some(Group(0, 1, 0, 0, false)), w, r) == [Group(0, 1, 0, 0, false), Group(2, 2, 1, 2, false), third];
  }

  lemma SameWords(p: string, c: string, d: string, e: string, lower: string -> string)
    ensures BareWords([p, c], lower) == BareWords([c, p], lower)
    ensures BareWords([d, e, p], lower) == BareWords([p, d, e], lower)
    ensures BareWords([p, c, d, e, p], lower) != BareWords([c, p, d, e], lower)
  {
    Reordered(BareList([p, c], lower), BareList([c, p], lower), BareList([d, e, p], lower), BareList([p, d, e], lower));
    assert |BareWords([p, c, d, e, p], lower)| == 5 && |BareWords([c, p, d, e], lower)| == 4;
  }

  lemma Reordered<T>(two: seq<T>, turned: seq<T>, three: seq<T>, rolled: seq<T>)
    requires |two| == |turned| == 2 && two[0] == turned[1] && two[1] == turned[0]
    requires |three| == |rolled| == 3 && three[0] == rolled[1] && three[1] == rolled[2] && three[2] == rolled[0]
    ensures multiset(two) == multiset(turned) && multiset(three) == multiset(rolled)
  {
    assert two == two[..1] + two[1..] && turned == two[1..] + two[..1];
    assert three == three[..2] + three[2..] && rolled == three[2..] + three[..2];
  }

  lemma MiddleWords(lower: string -> string)
    ensures OneMistake(Group(0, 1, 0, 0, false), Group(0, 1, 0, 0, false), Group(2, 2, 1, 2, false), FAULTY, KEY, lower)
    ensures OneMistake(Group(2, 2, 1, 2, false), Group(2, 2, 1, 2, false), Group(4, 5, 4, 4, false), FAULTY, KEY, lower)
    ensures !OneMistake(Group(0, 1, 0, 0, false), Group(2, 2, 1, 2, false), Group(4, 5, 4, 4, false), FAULTY, KEY, lower)
  {
    var w, r := FAULTY, KEY;
    SameWords("p", "c", "d", "e", lower);
    assert w[0..2] == ["p", "c"] && r[0..2] == ["c", "p"];
    assert w[2..5] == ["d", "e", "p"] && r[1..4] == ["p", "d", "e"];
    assert w[0..5] == ["p", "c", "d", "e", "p"] && r[0..4] == ["c", "p", "d", "e"];
  }

  // ----- What a run is made of -----

  /** The run being collected ends where the walk stands. */
  predicate EndsHere(cur: Option<Group>, i: nat, j: nat) {
    cur.Some? ==> cur.value.wFrom <= cur.value.wTo == i && cur.value.rFrom <= cur.value.rTo == j
  }

  lemma {:induction false} RunsStart(rel: (string, string) -> bool, ops: seq<Op>, cur: Option<Group>, w: seq<string>, r: seq<string>, i: nat, j: nat, g: Group)
    requires Script(rel, w, r, ops, i, j) && EndsHere(cur, i, j) && g in RawGroups(ops, cur, w, r)
    ensures g.wFrom >= (if cur.Some? then cur.value.wFrom else i) && g.rFrom >= (if cur.Some? then cur.value.rFrom else j)
    decreases |ops|
  {
    if ops != [] {
      var op, rest := ops[0], ops[1..];
      if !Identical(op, w, r) {
        RunsStart(rel, rest, Some(Widen(cur, op)), w, r, NextA(op), NextB(op), g);
      } else if g in RawGroups(rest, None, w, r) {
        RunsStart(rel, rest, None, w, r, i + 1, j + 1, g);
      }
    }
  }

  lemma {:induction false} KeptOutside(rel: (string, string) -> bool, ops: seq<Op>, cur: Option<Group>, w: seq<string>, r: seq<string>, i: nat, j: nat, op: Op, g: Group)
    requires Script(rel, w, r, ops, i, j) && EndsHere(cur, i, j) && g in RawGroups(ops, cur, w, r)
    requires op in ops && Identical(op, w, r)
    ensures !(g.wFrom <= op.ai < g.wTo) && !(g.rFrom <= op.bi < g.rTo)
    decreases |ops|
  {
    var head, rest := ops[0], ops[1..];
    if !Identical(head, w, r) {
      KeptOutside(rel, rest, Some(Widen(cur, head)), w, r, NextA(head), NextB(head), op, g);
    } else if g in RawGroups(rest, None, w, r) {
      if op in rest { KeptOutside(rel, rest, None, w, r, i + 1, j + 1, op, g); }
      else { RunsStart(rel, rest, None, w, r, i + 1, j + 1, g); }
    } else {
      ScriptBounds(rel, w, r, ops, i, j);
    }
  }

  /** A run holds no word that the alignment keeps as it is. */
  lemma RunsAreDifferences(w: seq<string>, r: seq<string>, check: Check, lower: string -> string, op: Op, g: Group)
    requires op in Walk(Literal(check, lower), w, r, 0, 0) && Identical(op, w, r) && g in RawOf(w, r, check, lower)
    ensures !(g.wFrom <= op.ai < g.wTo) && !(g.rFrom <= op.bi < g.rTo)
  {
    var rel := Literal(check, lower);
    WalkIsScript(rel, w, r, 0, 0);
    KeptOutside(rel, Walk(rel, w, r, 0, 0), None, w, r, 0, 0, op, g);
  }
}
