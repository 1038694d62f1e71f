/** What counts as one mistake: the difference between the faulty sentence and the key. */
module Spans {
  import opened Options
  import opened Sequences
  import opened Text
  import opened AnswerKey
  import opened Alignment
  import Typo

  datatype StrayPolicy = Ignore | Flag | Block

  datatype Check = Check(on: bool, caseInsensitive: bool, ignorePunct: bool, typo: bool, near: real,
                         exactPass: bool, strayEdits: StrayPolicy, requireAllSpans: bool)

  /** An override is filed under the derived span's own place and wording. */
  datatype SpanKey = SpanKey(wFrom: nat, wTo: nat, fix: string)

  /** `soft` holds the keys of the overrides that call a span soft. */
  datatype Item = Item(wrong: string, ref: string, alts: seq<string>, soft: set<SpanKey>)

  datatype Group = Group(wFrom: nat, wTo: nat, rFrom: nat, rTo: nat, order: bool)

  datatype Span = Span(wFrom: nat, wTo: nat, rFrom: nat, rTo: nat,
                       wrong: string, fix: string, order: bool, soft: bool)

  function Variants(item: Item): seq<string> { ExpandRef(item.ref) + ExpandAll(item.alts) }

  function ExpandAll(refs: seq<string>): seq<string> {
    if refs == [] then [] else ExpandRef(refs[0]) + ExpandAll(refs[1..])
  }

  function WordEq(a: string, b: string, check: Check, lower: string -> string): bool {
    || (if check.caseInsensitive then lower(a) == lower(b) else a == b)
    || (check.typo && Typo.Close(lower(a), lower(b)))
  }

  // ----- Bare words -----

  const OPENING := "«\"'(["
  const CLOSING := "»\"'.,;:!?)]"

  function StripStart(s: string): string {
    if s != "" && s[0] in OPENING then StripStart(s[1..]) else s
  }

  function StripEnd(s: string): string {
    if s != "" && s[|s| - 1] in CLOSING then StripEnd(s[..|s| - 1]) else s
  }

  function Bare(word: string, lower: string -> string): string { lower(StripEnd(StripStart(word))) }

  function Bares(ws: seq<string>, lower: string -> string): multiset<string> {
    if ws == [] then multiset{} else multiset{Bare(ws[0], lower)} + Bares(ws[1..], lower)
  }

  // ----- Runs of deviations -----

  predicate Identical(op: Op, w: seq<string>, r: seq<string>) {
    op.Both? && op.ai < |w| && op.bi < |r| && w[op.ai] == r[op.bi]
  }

  function Widen(cur: Option<Group>, op: Op): Group {
    match cur
    case None => Group(op.ai, NextA(op), op.bi, NextB(op), false)
    case Some(g) => g.(wTo := Max(g.wTo, NextA(op)), rTo := Max(g.rTo, NextB(op)))
  }

  function Closed(cur: Option<Group>): seq<Group> { if cur.Some? then [cur.value] else [] }

  function RawGroups(ops: seq<Op>, cur: Option<Group>, w: seq<string>, r: seq<string>): seq<Group> {
    if ops == [] then Closed(cur)
    else if Identical(ops[0], w, r) then Closed(cur) + RawGroups(ops[1..], None, w, r)
    else RawGroups(ops[1..], Some(Widen(cur, ops[0])), w, r)
  }

  method CollectRuns(ops: seq<Op>, w: seq<string>, r: seq<string>) returns (raw: seq<Group>)
    ensures raw == RawGroups(ops, None, w, r)
  {
    raw := [];
    var current: Option<Group> := None;
    ghost var all := RawGroups(ops, None, w, r);
    assert ops[0..] == ops;
    for k := 0 to |ops|
      invariant all == raw + RawGroups(ops[k..], current, w, r)
    {
      var op := ops[k];
      assert ops[k..][0] == op && ops[k..][1..] == ops[k + 1..];
      if Identical(op, w, r) {
        ghost var rest := RawGroups(ops[k + 1..], None, w, r);
        assert raw + (Closed(current) + rest) == (raw + Closed(current)) + rest;
        if current.Some? {
          raw := raw + [current.value];
          current := None;
        }
      } else {
        current := Some(Widen(current, op));
      }
    }
    if current.Some? { raw := raw + [current.value]; }
  }

  // ----- Word-order mistakes -----

  /** Two groups at most one matching word apart — the code's bound is a difference of at most
      two — that hold the same words on both sides are one mistake. */
  predicate Mergeable(p: Group, g: Group, w: seq<string>, r: seq<string>, lower: string -> string) {
    g.wFrom - p.wTo <= 2 && SameBareWords(Fuse(p, g), w, r, lower)
  }

  function Fuse(p: Group, g: Group): Group { p.(wTo := g.wTo, rTo := g.rTo, order := true) }

  predicate SameBareWords(g: Group, w: seq<string>, r: seq<string>, lower: string -> string) {
    && g.wFrom <= g.wTo <= |w| && g.rFrom <= g.rTo <= |r|
    && Bares(w[g.wFrom..g.wTo], lower) == Bares(r[g.rFrom..g.rTo], lower)
  }

  /** `cur` is the last group kept so far; the groups from `k` on are still to come. */
  function MergeFrom(cur: Group, raw: seq<Group>, k: nat, w: seq<string>, r: seq<string>, lower: string -> string): (gs: seq<Group>)
    requires k <= |raw|
    ensures gs != []
    decreases |raw| - k
  {
    if k == |raw| then [cur]
    else if Mergeable(cur, raw[k], w, r, lower) then MergeFrom(Fuse(cur, raw[k]), raw, k + 1, w, r, lower)
    else [cur] + MergeFrom(raw[k], raw, k + 1, w, r, lower)
  }

  function Merge(raw: seq<Group>, w: seq<string>, r: seq<string>, lower: string -> string): seq<Group> {
    if raw == [] then [] else MergeFrom(raw[0], raw, 1, w, r, lower)
  }

  method MergeRuns(raw: seq<Group>, w: seq<string>, r: seq<string>, lower: string -> string)
    returns (merged: seq<Group>)
    ensures merged == Merge(raw, w, r, lower)
  {
    merged := [];
    if raw == [] { return; }
    ghost var all := Merge(raw, w, r, lower);
    ghost var done: seq<Group>, cur := [], raw[0];
    merged := [raw[0]];
    for k := 1 to |raw|
      invariant merged == done + [cur]
      invariant all == done + MergeFrom(cur, raw, k, w, r, lower)
    {
      var group := raw[k];
      var last := |merged| - 1;
      LastOf(merged, done, cur, Fuse(cur, group));
      var previous := merged[last];
      if Mergeable(previous, group, w, r, lower) {
        merged := merged[last := Fuse(previous, group)];
        cur := Fuse(cur, group);
      } else {
        Reassociate(done, previous, MergeFrom(group, raw, k + 1, w, r, lower));
        done, cur := merged, group;
        merged := merged + [group];
      }
    }
  }

  // ----- The derived groups are a patch -----

  /** From word `i` of the faulty sentence and word `j` of the key on, the groups name every
      difference: between them the two sides hold the same words, every group changes something,
      and at least one identical word stands between two neighbours. */
  ghost predicate Tiles(gs: seq<Group>, w: seq<string>, r: seq<string>, i: nat, j: nat)
    decreases |gs|
  {
    && i <= |w| && j <= |r|
    && if gs == [] then w[i..] == r[j..]
       else
         var g := gs[0];
         && i <= g.wFrom <= g.wTo <= |w| && j <= g.rFrom <= g.rTo <= |r|
         && (g.wFrom < g.wTo || g.rFrom < g.rTo)
         && w[i..g.wFrom] == r[j..g.rFrom]
         && (|gs| > 1 ==> g.wTo < gs[1].wFrom)
         && Tiles(gs[1..], w, r, g.wTo, g.rTo)
  }

  /** The faulty sentence from word `i` on, with every group replaced by the key's wording. */
  function Patched(gs: seq<Group>, w: seq<string>, r: seq<string>, i: nat): seq<string>
    decreases |gs|
  {
    if gs == [] then (if i <= |w| then w[i..] else [])
    else
      var g := gs[0];
      (if i <= g.wFrom <= |w| then w[i..g.wFrom] else [])
      + (if g.rFrom <= g.rTo <= |r| then r[g.rFrom..g.rTo] else [])
      + Patched(gs[1..], w, r, g.wTo)
  }

  lemma {:induction false} TilesPatch(gs: seq<Group>, w: seq<string>, r: seq<string>, i: nat, j: nat)
    requires Tiles(gs, w, r, i, j)
    ensures Patched(gs, w, r, i) == r[j..]
    decreases |gs|
  {
    if gs != [] {
      var g := gs[0];
      TilesPatch(gs[1..], w, r, g.wTo, g.rTo);
      assert r[j..] == r[j..g.rFrom] + r[g.rFrom..g.rTo] + r[g.rTo..];
    }
  }

  /** The state between two steps of the run collector: the open group ends at the cursors. */
  ghost predicate OpenAt(cur: Option<Group>, w: seq<string>, r: seq<string>, i0: nat, j0: nat, i: nat, j: nat)
  {
    && i0 <= i <= |w| && j0 <= j <= |r|
    && match cur
       case None => w[i0..i] == r[j0..j]
       case Some(g) =>
         && i0 <= g.wFrom <= g.wTo == i && j0 <= g.rFrom <= g.rTo == j
         && (g.wFrom < g.wTo || g.rFrom < g.rTo)
         && w[i0..g.wFrom] == r[j0..g.rFrom]
  }

  lemma TilesCons(g: Group, rest: seq<Group>, w: seq<string>, r: seq<string>, i: nat, j: nat)
    requires i <= g.wFrom <= g.wTo <= |w| && j <= g.rFrom <= g.rTo <= |r| && (g.wFrom < g.wTo || g.rFrom < g.rTo)
    requires w[i..g.wFrom] == r[j..g.rFrom] && (rest != [] ==> g.wTo < rest[0].wFrom)
    requires Tiles(rest, w, r, g.wTo, g.rTo)
    ensures Tiles([g] + rest, w, r, i, j)
  {
    assert ([g] + rest)[1..] == rest;
  }

  lemma ClosedTiles(cur: Option<Group>, w: seq<string>, r: seq<string>, i0: nat, j0: nat)
    requires OpenAt(cur, w, r, i0, j0, |w|, |r|)
    ensures Tiles(Closed(cur), w, r, i0, j0)
  {
    if cur.Some? {
      TilesCons(cur.value, [], w, r, i0, j0);
      assert [cur.value] + [] == Closed(cur);
    } else {
      assert w[i0..] == w[i0..|w|] && r[j0..] == r[j0..|r|];
    }
  }

  lemma OneWord(w: seq<string>, r: seq<string>, i: nat, j: nat)
    requires i < |w| && j < |r| && w[i] == r[j]
    ensures w[i..i + 1] == r[j..j + 1]
  {}

  lemma AnotherWord(w: seq<string>, r: seq<string>, i0: nat, j0: nat, i: nat, j: nat)
    requires i0 <= i < |w| && j0 <= j < |r| && w[i] == r[j] && w[i0..i] == r[j0..j]
    ensures w[i0..i + 1] == r[j0..j + 1]
  {
    assert w[i0..i + 1] == w[i0..i] + [w[i]] == r[j0..j] + [r[j]];
  }

  lemma {:induction false} RawGroupsTile(rel: (string, string) -> bool, ops: seq<Op>, cur: Option<Group>,
                                         w: seq<string>, r: seq<string>, i0: nat, j0: nat, i: nat, j: nat)
    requires Script(rel, w, r, ops, i, j) && OpenAt(cur, w, r, i0, j0, i, j)
    ensures var gs := RawGroups(ops, cur, w, r);
            && Tiles(gs, w, r, i0, j0)
            && (gs != [] ==> gs[0].wFrom >= (if cur.Some? then cur.value.wFrom else i))
    decreases |ops|
  {
    ScriptBounds(rel, w, r, ops, i, j);
    if ops == [] {
      ClosedTiles(cur, w, r, i0, j0);
    } else {
      var op, rest := ops[0], ops[1..];
      if Identical(op, w, r) {
        if cur.Some? {
          OneWord(w, r, i, j);
          RawGroupsTile(rel, rest, None, w, r, i, j, i + 1, j + 1);
          TilesCons(cur.value, RawGroups(rest, None, w, r), w, r, i0, j0);
          assert RawGroups(ops, cur, w, r) == [cur.value] + RawGroups(rest, None, w, r);
        } else {
          AnotherWord(w, r, i0, j0, i, j);
          RawGroupsTile(rel, rest, None, w, r, i0, j0, i + 1, j + 1);
          assert RawGroups(ops, cur, w, r) == RawGroups(rest, None, w, r);
        }
      } else {
        RawGroupsTile(rel, rest, Some(Widen(cur, op)), w, r, i0, j0, NextA(op), NextB(op));
      }
    }
  }

  lemma {:induction false} MergeTiles(cur: Group, raw: seq<Group>, k: nat, w: seq<string>, r: seq<string>,
                                      lower: string -> string, i: nat, j: nat)
    requires k <= |raw| && Tiles([cur] + raw[k..], w, r, i, j)
    ensures var gs := MergeFrom(cur, raw, k, w, r, lower);
            Tiles(gs, w, r, i, j) && gs[0].wFrom == cur.wFrom
    decreases |raw| - k
  {
    assert ([cur] + raw[k..])[1..] == raw[k..];
    if k < |raw| {
      var g, tail := raw[k], raw[k + 1..];
      assert raw[k..] == [g] + tail && raw[k..][1..] == tail;
      if Mergeable(cur, g, w, r, lower) {
        assert ([Fuse(cur, g)] + tail)[1..] == tail;
        MergeTiles(Fuse(cur, g), raw, k + 1, w, r, lower, i, j);
      } else {
        MergeTiles(g, raw, k + 1, w, r, lower, cur.wTo, cur.rTo);
        assert MergeFrom(cur, raw, k, w, r, lower)[1..] == MergeFrom(g, raw, k + 1, w, r, lower);
      }
    }
  }

  /** A group flagged as a word-order mistake holds the same bare words on both sides. */
  lemma {:induction false} OrderSameWords(cur: Group, raw: seq<Group>, k: nat, w: seq<string>, r: seq<string>,
                                          lower: string -> string)
    requires k <= |raw| && (forall t | k <= t < |raw| :: !raw[t].order)
    requires cur.order ==> SameBareWords(cur, w, r, lower)
    ensures forall g | g in MergeFrom(cur, raw, k, w, r, lower) :: g.order ==> SameBareWords(g, w, r, lower)
    decreases |raw| - k
  {
    if k < |raw| {
      if Mergeable(cur, raw[k], w, r, lower) {
        OrderSameWords(Fuse(cur, raw[k]), raw, k + 1, w, r, lower);
      } else {
        OrderSameWords(raw[k], raw, k + 1, w, r, lower);
      }
    }
  }

  lemma {:induction false} RawNotOrder(ops: seq<Op>, cur: Option<Group>, w: seq<string>, r: seq<string>)
    requires cur.Some? ==> !cur.value.order
    ensures forall g | g in RawGroups(ops, cur, w, r) :: !g.order
  {
    if ops != [] {
      if Identical(ops[0], w, r) { RawNotOrder(ops[1..], None, w, r); }
      else { RawNotOrder(ops[1..], Some(Widen(cur, ops[0])), w, r); }
    }
  }

  // ----- Spans -----

  function KeyWords(item: Item): seq<string> {
    if Variants(item) == [] then [] else Words(Variants(item)[0])
  }

  /** The author's two lines are read literally, whatever the typo setting. */
  function Literal(check: Check, lower: string -> string): (string, string) -> bool {
    (a, b) => WordEq(a, b, check.(typo := false), lower)
  }

  function RawOf(w: seq<string>, r: seq<string>, check: Check, lower: string -> string): seq<Group> {
    RawGroups(Walk(Literal(check, lower), w, r, 0, 0), None, w, r)
  }

  function GroupsOf(w: seq<string>, r: seq<string>, check: Check, lower: string -> string): seq<Group> {
    Merge(RawOf(w, r, check, lower), w, r, lower)
  }

  function ToSpan(g: Group, w: seq<string>, r: seq<string>, soft: set<SpanKey>): Span {
    var wrong := if g.wFrom <= g.wTo <= |w| then Join(w[g.wFrom..g.wTo]) else "";
    var fix := if g.rFrom <= g.rTo <= |r| then Join(r[g.rFrom..g.rTo]) else "";
    Span(g.wFrom, g.wTo, g.rFrom, g.rTo, wrong, fix, g.order, SpanKey(g.wFrom, g.wTo, fix) in soft)
  }

  function ToSpans(gs: seq<Group>, w: seq<string>, r: seq<string>, soft: set<SpanKey>): seq<Span> {
    seq(|gs|, k requires 0 <= k < |gs| => ToSpan(gs[k], w, r, soft))
  }

  function SpansOf(item: Item, check: Check, lower: string -> string): seq<Span> {
    var w, r := Words(item.wrong), KeyWords(item);
    if w == [] || r == [] then [] else ToSpans(GroupsOf(w, r, check, lower), w, r, item.soft)
  }

  method DeriveSpans(item: Item, check: Check, lower: string -> string) returns (out: seq<Span>)
    ensures out == SpansOf(item, check, lower)
  {
    var w, r := Words(item.wrong), KeyWords(item);
    if w == [] || r == [] { return []; }
    var ops, lcs := Align(Literal(check, lower), w, r);
    var raw := CollectRuns(ops, w, r);
    var merged := MergeRuns(raw, w, r, lower);
    out := ToSpans(merged, w, r, item.soft);
  }

  /** Two equal sentences align word by word. */
  lemma {:induction false} SameWordsNoGroup(w: seq<string>, check: Check, lower: string -> string, i: nat)
    requires i <= |w|
    ensures RawGroups(Walk(Literal(check, lower), w, w, i, i), None, w, w) == []
    decreases |w| - i
  {
    if i < |w| {
      SameWordsNoGroup(w, check, lower, i + 1);
      var rel := Literal(check, lower);
      var ops := Walk(rel, w, w, i, i);
      assert ops[0] == Both(i, i) && ops[1..] == Walk(rel, w, w, i + 1, i + 1);
    }
  }

  /** The derived groups — the raw runs as well as the merged ones — are a correct patch from
      the faulty sentence to the key, with an identical word between any two neighbours. */
  lemma SpansArePatch(w: seq<string>, r: seq<string>, check: Check, lower: string -> string)
    ensures Tiles(RawOf(w, r, check, lower), w, r, 0, 0)
    ensures Tiles(GroupsOf(w, r, check, lower), w, r, 0, 0)
    ensures Patched(RawOf(w, r, check, lower), w, r, 0) == r
    ensures Patched(GroupsOf(w, r, check, lower), w, r, 0) == r
    ensures w != r <==> GroupsOf(w, r, check, lower) != []
    ensures forall g | g in GroupsOf(w, r, check, lower) :: g.order ==> SameBareWords(g, w, r, lower)
  {
    var rel := Literal(check, lower);
    var raw := RawOf(w, r, check, lower);
    WalkIsScript(rel, w, r, 0, 0);
    RawGroupsTile(rel, Walk(rel, w, r, 0, 0), None, w, r, 0, 0, 0, 0);
    TilesPatch(raw, w, r, 0, 0);
    RawNotOrder(Walk(rel, w, r, 0, 0), None, w, r);
    if raw != [] {
      assert [raw[0]] + raw[1..] == raw;
      MergeTiles(raw[0], raw, 1, w, r, lower, 0, 0);
      OrderSameWords(raw[0], raw, 1, w, r, lower);
    }
    TilesPatch(GroupsOf(w, r, check, lower), w, r, 0, 0);
    assert r[0..] == r && w[0..] == w;
    if w == r { SameWordsNoGroup(w, check, lower, 0); }
  }
}
