/** What an edit of the sentences does to the focus words. */
module FocusSurvival {
  import opened Sequences
  import opened Options
  import opened Text
  import opened Tokens
  import opened Sorting
  import opened FocusReanchor

  // ----- Where one word goes -----

  lemma {:induction false} OccurrencesGrow(ws: seq<string>, w: string, a: nat, b: nat)
    requires a <= b <= |ws|
    ensures Occurrences(ws, w, a) <= Occurrences(ws, w, b)
    ensures a < b && ws[a] == w ==> Occurrences(ws, w, a) < Occurrences(ws, w, b)
    decreases b - a
  {
    if a < b { OccurrencesGrow(ws, w, a, b - 1); }
  }

  lemma {:induction false} SameOccurrences(a: seq<string>, b: seq<string>, w: string, n: nat)
    requires n <= |a| && n <= |b| && forall t | 0 <= t < n :: a[t] == b[t]
    ensures Occurrences(a, w, n) == Occurrences(b, w, n)
  {
    if n > 0 { SameOccurrences(a, b, w, n - 1); }
  }

  /** The search finds the occurrence with that number, if there is one. */
  lemma {:induction false} FindNthIs(ws: seq<string>, w: string, ordinal: nat, k: nat, seen: nat)
    requires k <= |ws| && seen == Occurrences(ws, w, k) && seen <= ordinal
    ensures match FindNth(ws, w, ordinal, k, seen)
            case Some(x) => k <= x < |ws| && ws[x] == w && Occurrences(ws, w, x) == ordinal
            case None => Occurrences(ws, w, |ws|) <= ordinal
    decreases |ws| - k
  {
    if k < |ws| && (ws[k] != w || seen != ordinal) {
      FindNthIs(ws, w, ordinal, k + 1, Occurrences(ws, w, k + 1));
    }
  }

  lemma {:induction false} PrefixStops(a: seq<string>, b: seq<string>, k: nat)
    requires k <= |a| && k <= |b|
    ensures var n := Prefix(a, b, k); n == |a| || n == |b| || a[n] != b[n]
    decreases |a| - k
  {
    if k < |a| && k < |b| && a[k] == b[k] { PrefixStops(a, b, k + 1); }
  }

  lemma {:induction false} SuffixStops(a: seq<string>, b: seq<string>, prefix: nat, k: nat)
    requires prefix + k <= |a| && prefix + k <= |b|
    ensures var n := Suffix(a, b, prefix, k); n == |a| - prefix || n == |b| - prefix || !SameFromEnd(a, b, n)
    decreases |a| - k
  {
    if k < |a| - prefix && k < |b| - prefix && SameFromEnd(a, b, k) { SuffixStops(a, b, prefix, k + 1); }
  }

  /** The change found is the smallest one: where the words `s` became the words `t` between the words
      `u` and `v`, the words before and behind are found again exactly. */
  lemma ChangeIs(u: seq<string>, s: seq<string>, t: seq<string>, v: seq<string>)
    requires Replaces(u, s, t, v)
    ensures ChangeOf(u + s + v, u + t + v) == Change(u + s + v, u + t + v, |u|, |v|)
  {
    var a, b := u + s + v, u + t + v;
    PrefixStops(a, b, 0);
    assert a == u + (s + v) && b == u + (t + v);
    FromIs(u, s + v, t + v, a, b, Prefix(a, b, 0));
    SuffixStops(a, b, |u|, 0);
    BehindIs(u, s, t, v, a, b, (if |a| <= |b| then |a| else |b|) - |u|, Suffix(a, b, |u|, 0));
  }

  ghost predicate IsChange(c: Change) { c == ChangeOf(c.before, c.after) }

  /** A word keeps its letters wherever it goes. */
  lemma TargetWord(c: Change, i: nat)
    requires IsChange(c) && i < |c.before| && Target(c, i).Some?
    ensures var t := Target(c, i).value; t < |c.after| && c.after[t] == c.before[i]
  {
    if i >= c.prefix {
      if i >= |c.before| - c.suffix {
        assert SameFromEnd(c.before, c.after, |c.before| - 1 - i);
      } else {
        FindNthIs(c.after, c.before[i], Occurrences(c.before, c.before[i], i), 0, 0);
      }
    }
  }

  predicate Inside(c: Change, i: nat) { c.prefix <= i < |c.before| - c.suffix }

  predicate Behind(c: Change, i: nat) { i >= |c.before| - c.suffix && i >= c.prefix }

  /** A word searched for inside the edit never lands in the common prefix. */
  lemma InsideStaysBehindPrefix(c: Change, i: nat)
    requires IsChange(c) && Inside(c, i) && Target(c, i).Some?
    ensures Target(c, i).value >= c.prefix
  {
    var w, t := c.before[i], Target(c, i).value;
    FindNthIs(c.after, w, Occurrences(c.before, w, i), 0, 0);
    if t < c.prefix {
      SameOccurrences(c.before, c.after, w, t);
      OccurrencesGrow(c.before, w, t, i);
    }
  }

  /** Two words are sent to one place only when the first is searched for inside the edit and the
      second stands behind it. */
  lemma TargetsMeet(c: Change, i: nat, j: nat)
    requires IsChange(c) && i < j < |c.before| && Target(c, i).Some? && Target(c, i) == Target(c, j)
    ensures Inside(c, i) && Behind(c, j)
  {
    TargetWord(c, i);
    TargetWord(c, j);
    if Inside(c, j) {
      InsideStaysBehindPrefix(c, j);
      if Inside(c, i) {
        var w := c.before[i];
        FindNthIs(c.after, w, Occurrences(c.before, w, i), 0, 0);
        FindNthIs(c.after, w, Occurrences(c.before, w, j), 0, 0);
        OccurrencesGrow(c.before, w, i, j);
      }
    }
  }

  // ----- All the words of a sentence -----

  /** Every index in range, in ascending order. */
  ghost predicate Strict(focus: seq<FocusWord>, n: nat) {
    && (forall k | 0 <= k < |focus| :: focus[k].wordIndex < n)
    && (forall k, l | 0 <= k < l < |focus| :: focus[k].wordIndex < focus[l].wordIndex)
  }

  lemma StrictAt(focus: seq<FocusWord>, n: nat, k: nat, l: nat)
    requires Strict(focus, n) && k < |focus| && l < |focus|
    ensures focus[k].wordIndex < n
    ensures k < l ==> focus[k].wordIndex < focus[l].wordIndex
    ensures l < k ==> focus[l].wordIndex < focus[k].wordIndex
  {}

  predicate InBounds(focus: seq<FocusWord>, n: nat) { forall k | 0 <= k < |focus| :: focus[k].wordIndex < n }

  /** The `k`-th focus word keeps a place: it has one to go to, and none before it in the list goes
      to the same. */
  predicate Keeps(c: Change, focus: seq<FocusWord>, k: nat)
    requires c.suffix <= |c.before| && c.suffix <= |c.after| && k < |focus|
  {
    var t := Target(c, focus[k].wordIndex);
    t.Some? && forall j | 0 <= j < k :: Target(c, focus[j].wordIndex) != t
  }

  function At(c: Change, f: FocusWord): FocusWord
    requires c.suffix <= |c.before| && c.suffix <= |c.after| && Target(c, f.wordIndex).Some?
  {
    f.(wordIndex := Target(c, f.wordIndex).value)
  }

  /** A place is taken once some word of the list went for it. */
  lemma {:induction false} TakenIff(c: Change, orphan: FocusWord -> FocusOrphan, focus: seq<FocusWord>, n: nat, t: nat)
    requires c.suffix <= |c.before| && c.suffix <= |c.after| && n <= |focus|
    ensures TakenBy(FateOf(c, orphan, focus, n).focus, t) <==> exists j | 0 <= j < n :: Target(c, focus[j].wordIndex) == Some(t)
  {
    if n > 0 {
      var st, f := FateOf(c, orphan, focus, n - 1), focus[n - 1];
      var to := Target(c, f.wordIndex);
      TakenIff(c, orphan, focus, n - 1, t);
      if to.Some? && !TakenBy(st.focus, to.value) { TakenSnoc(st.focus, At(c, f)); }
    }
  }

  lemma FateUnfold(c: Change, orphan: FocusWord -> FocusOrphan, focus: seq<FocusWord>, n: nat)
    requires c.suffix <= |c.before| && c.suffix <= |c.after| && n < |focus|
    ensures var st := FateOf(c, orphan, focus, n);
            FateOf(c, orphan, focus, n + 1)
            == if Keeps(c, focus, n) then st.(focus := st.focus + [At(c, focus[n])])
               else st.(orphans := st.orphans + [orphan(focus[n])])
  {
    var t := Target(c, focus[n].wordIndex);
    if t.Some? { TakenIff(c, orphan, focus, n, t.value); }
  }

  lemma {:induction false} FateHas(c: Change, orphan: FocusWord -> FocusOrphan, focus: seq<FocusWord>, n: nat, k: nat)
    requires c.suffix <= |c.before| && c.suffix <= |c.after| && n <= |focus| && k < n
    ensures var st := FateOf(c, orphan, focus, n);
            if Keeps(c, focus, k) then At(c, focus[k]) in st.focus else orphan(focus[k]) in st.orphans
  {
    FateUnfold(c, orphan, focus, n - 1);
    if k < n - 1 { FateHas(c, orphan, focus, n - 1, k); }
  }

  lemma {:induction false} PlacedFrom(c: Change, orphan: FocusWord -> FocusOrphan, focus: seq<FocusWord>, n: nat, x: FocusWord) returns (k: nat)
    requires c.suffix <= |c.before| && c.suffix <= |c.after| && n <= |focus| && x in FateOf(c, orphan, focus, n).focus
    ensures k < n && Keeps(c, focus, k) && x == At(c, focus[k])
  {
    FateUnfold(c, orphan, focus, n - 1);
    if x in FateOf(c, orphan, focus, n - 1).focus { k := PlacedFrom(c, orphan, focus, n - 1, x); } else { k := n - 1; }
  }

  lemma {:induction false} OrphanFrom(c: Change, orphan: FocusWord -> FocusOrphan, focus: seq<FocusWord>, n: nat, o: FocusOrphan) returns (k: nat)
    requires c.suffix <= |c.before| && c.suffix <= |c.after| && n <= |focus| && o in FateOf(c, orphan, focus, n).orphans
    ensures k < n && !Keeps(c, focus, k) && o == orphan(focus[k])
  {
    FateUnfold(c, orphan, focus, n - 1);
    if o in FateOf(c, orphan, focus, n - 1).orphans { k := OrphanFrom(c, orphan, focus, n - 1, o); } else { k := n - 1; }
  }

  lemma FateIs(c: Change, orphan: FocusWord -> FocusOrphan, focus: seq<FocusWord>)
    requires c.suffix <= |c.before| && c.suffix <= |c.after|
    ensures forall x :: x in FateOf(c, orphan, focus, |focus|).focus <==>
              exists k | 0 <= k < |focus| :: Keeps(c, focus, k) && x == At(c, focus[k])
    ensures forall o :: o in FateOf(c, orphan, focus, |focus|).orphans <==>
              exists k | 0 <= k < |focus| :: !Keeps(c, focus, k) && o == orphan(focus[k])
  {
    var st := FateOf(c, orphan, focus, |focus|);
    forall k | 0 <= k < |focus| ensures if Keeps(c, focus, k) then At(c, focus[k]) in st.focus else orphan(focus[k]) in st.orphans {
      FateHas(c, orphan, focus, |focus|, k);
    }
    forall x | x in st.focus ensures exists k | 0 <= k < |focus| :: Keeps(c, focus, k) && x == At(c, focus[k]) {
      var k := PlacedFrom(c, orphan, focus, |focus|, x);
    }
    forall o | o in st.orphans ensures exists k | 0 <= k < |focus| :: !Keeps(c, focus, k) && o == orphan(focus[k]) {
      var k := OrphanFrom(c, orphan, focus, |focus|, o);
    }
  }

  /** The fate of every focus word, in whatever order they are listed: in front of the edit it stays,
      inside it goes to the same word at the same occurrence, behind it moves along; it becomes an
      orphan exactly when that occurrence is gone, or a word listed before it goes to its place. */
  lemma SentenceFates(abc: Alphabet, seg: Segment, newText: string)
    ensures var c, fate := ChangeOf(Lower(abc, seg.text), Lower(abc, newText)), ReanchorFocus(abc, seg, newText);
            && (forall x :: x in fate.focus <==>
                  exists k | 0 <= k < |seg.focus| :: Keeps(c, seg.focus, k) && x == At(c, seg.focus[k]))
            && (forall o :: o in fate.orphans <==>
                  exists k | 0 <= k < |seg.focus| :: !Keeps(c, seg.focus, k) && o == OrphanOf(abc, seg, seg.focus[k]))
  {
    var c := ChangeOf(Lower(abc, seg.text), Lower(abc, newText));
    var orphan := (f: FocusWord) => OrphanOf(abc, seg, f);
    FateIs(c, orphan, seg.focus);
    SortByIs(FateOf(c, orphan, seg.focus, |seg.focus|).focus, FocusKey);
  }

  /** A word searched for inside the edit lands where this one would move to. */
  ghost predicate Displaced(c: Change, focus: seq<FocusWord>, i: nat)
    requires c.suffix <= |c.before| && c.suffix <= |c.after|
  {
    Behind(c, i) && exists j | 0 <= j < |focus| :: Inside(c, focus[j].wordIndex) && Target(c, focus[j].wordIndex) == Target(c, i)
  }

  /** Listed in sentence order, a word with a place to go to loses it exactly when it stands behind
      the edit and a word from inside the edit lands there. */
  lemma KeepsInOrder(c: Change, focus: seq<FocusWord>, k: nat)
    requires IsChange(c) && Strict(focus, |c.before|) && k < |focus|
    ensures Keeps(c, focus, k) <==> Target(c, focus[k].wordIndex).Some? && !Displaced(c, focus, focus[k].wordIndex)
  {
    var i := focus[k].wordIndex;
    var t := Target(c, i);
    if t.Some? {
      if Displaced(c, focus, i) {
        var j :| 0 <= j < |focus| && Inside(c, focus[j].wordIndex) && Target(c, focus[j].wordIndex) == t;
        StrictAt(focus, |c.before|, j, k);
      }
      if j :| 0 <= j < k && Target(c, focus[j].wordIndex) == t {
        StrictAt(focus, |c.before|, j, k);
        TargetsMeet(c, focus[j].wordIndex, i);
        assert Displaced(c, focus, i);
      }
    }
  }

  /** Whatever the order, every placed focus word is one of the old ones, with its id and reason, on
      the same lower-cased word. */
  lemma ReanchorSameWord(abc: Alphabet, seg: Segment, newText: string, x: FocusWord)
    requires InBounds(seg.focus, |WordList(abc, seg.text)|) && x in ReanchorFocus(abc, seg, newText).focus
    ensures x.wordIndex < |WordList(abc, newText)|
    ensures exists f | f in seg.focus :: SameFocus(f, Lower(abc, seg.text), x, Lower(abc, newText))
  {
    var c := ChangeOf(Lower(abc, seg.text), Lower(abc, newText));
    SentenceFates(abc, seg, newText);
    var k :| 0 <= k < |seg.focus| && Keeps(c, seg.focus, k) && x == At(c, seg.focus[k]);
    TargetWord(c, seg.focus[k].wordIndex);
    assert SameFocus(seg.focus[k], c.before, x, c.after);
  }

  predicate SameFocus(f: FocusWord, before: seq<string>, x: FocusWord, after: seq<string>) {
    && x.id == f.id && x.why == f.why && f.wordIndex < |before| && x.wordIndex < |after|
    && after[x.wordIndex] == before[f.wordIndex]
  }

  /** A word behind the edit need not move with it: cutting the first «a» of «c a d a» puts the
      focus word on it in the place of the last one, which becomes an orphan. */
  lemma BehindCanBeDisplaced(orphan: FocusWord -> FocusOrphan)
    ensures var c, focus := ChangeOf(["c", "a", "d", "a"], ["c", "d", "a"]), [FocusWord("1", 1, ""), FocusWord("2", 3, "")];
            && Behind(c, 3) && Target(c, 3) == Some(2) && Displaced(c, focus, 3)
            && FateOf(c, orphan, focus, 2) == Fate([FocusWord("1", 2, "")], [orphan(focus[1])])
  {
    var b, a := ["c", "a", "d", "a"], ["c", "d", "a"];
    var c := ChangeOf(b, a);
    assert Prefix(b, a, 0) == Prefix(b, a, 1) == 1;
    assert SameFromEnd(b, a, 0) && SameFromEnd(b, a, 1);
    assert Suffix(b, a, 1, 0) == Suffix(b, a, 1, 1) == Suffix(b, a, 1, 2) == 2;
    assert Occurrences(b, "a", 1) == 0 by { assert Occurrences(b, "a", 0) == 0; }
    assert FindNth(a, "a", 0, 0, 0) == FindNth(a, "a", 0, 1, 0) == FindNth(a, "a", 0, 2, 0) == Some(2);
    var focus := [FocusWord("1", 1, ""), FocusWord("2", 3, "")];
    assert Inside(c, focus[0].wordIndex) && Target(c, focus[0].wordIndex) == Target(c, 3);
    DisplacedFate(c, orphan, focus);
  }

  lemma DisplacedFate(c: Change, orphan: FocusWord -> FocusOrphan, focus: seq<FocusWord>)
    requires c.suffix <= |c.before| && c.suffix <= |c.after| && |focus| == 2
    requires Target(c, focus[0].wordIndex).Some? && Target(c, focus[0].wordIndex) == Target(c, focus[1].wordIndex)
    ensures FateOf(c, orphan, focus, 2) == Fate([At(c, focus[0])], [orphan(focus[1])])
  {
    assert FateOf(c, orphan, focus, 0) == Fate([], []);
    assert FateOf(c, orphan, focus, 1) == Fate([At(c, focus[0])], []);
    assert [At(c, focus[0])][0].wordIndex == Target(c, focus[1].wordIndex).value;
  }

  /** An orphan an edit made can be put back in a sentence exactly when its word stands there on a
      place that is no focus word, and it goes to the first such place. */
  lemma FocusOrphanReturns(abc: Alphabet, seg: Segment, f: FocusWord, later: Segment)
    requires Lawful(abc) && f.wordIndex < |WordList(abc, seg.text)|
    ensures var o, word, words := OrphanOf(abc, seg, f), Lower(abc, seg.text)[f.wordIndex], Lower(abc, later.text);
            var place := PutBackIndex(abc, later, o);
            && (place.Some? <==> exists i | 0 <= i < |words| :: words[i] == word && !TakenBy(later.focus, i))
            && (place.Some? ==> place.value < |words| && words[place.value] == word && !TakenBy(later.focus, place.value)
                                && forall i | 0 <= i < place.value :: words[i] != word || TakenBy(later.focus, i))
  {
    TokensAreWordly(abc, seg.text);
    var ts := Tokenize(abc, seg.text);
    assert ts[f.wordIndex] in ts;
    assert Wordly(abc, WordList(abc, seg.text)[f.wordIndex]);
  }

  // ----- In order and in range -----

  ghost function InRange(n: nat): FocusWord -> bool { (f: FocusWord) => f.wordIndex < n }
  ghost function Apart(): (FocusWord, FocusWord) -> bool { (f: FocusWord, g: FocusWord) => f.wordIndex != g.wordIndex }

  lemma SortedIsStrict(focus: seq<FocusWord>, n: nat)
    requires Chain(focus, InRange(n), Apart())
    ensures Strict(SortBy(focus, FocusKey), n)
  {
    SortByChain(focus, FocusKey, InRange(n), Apart());
    SortByIs(focus, FocusKey);
    var s := SortBy(focus, FocusKey);
    forall k, l | 0 <= k < l < |s| ensures s[k].wordIndex < s[l].wordIndex {
      assert Leq(FocusKey(s[k]), FocusKey(s[l]));
      ChainAt(s, InRange(n), Apart(), k, l);
    }
    forall k | 0 <= k < |s| ensures s[k].wordIndex < n { ChainAt(s, InRange(n), Apart(), k, k); }
  }

  lemma {:induction false} FateApart(c: Change, orphan: FocusWord -> FocusOrphan, focus: seq<FocusWord>, n: nat)
    requires IsChange(c) && n <= |focus| && forall k | 0 <= k < |focus| :: focus[k].wordIndex < |c.before|
    ensures Chain(FateOf(c, orphan, focus, n).focus, InRange(|c.after|), Apart())
  {
    if n > 0 {
      var st, f := FateOf(c, orphan, focus, n - 1), focus[n - 1];
      var t := Target(c, f.wordIndex);
      FateApart(c, orphan, focus, n - 1);
      if t.Some? && !TakenBy(st.focus, t.value) {
        TargetWord(c, f.wordIndex);
        var g := f.(wordIndex := t.value);
        forall x | x in st.focus ensures Apart()(x, g) {
          var k :| 0 <= k < |st.focus| && st.focus[k] == x;
          assert st.focus[k].wordIndex != t.value;
        }
        ChainConcat(st.focus, [g], InRange(|c.after|), Apart());
      }
    }
  }

  /** For focus words in range, listed in any order, those of the new sentence are in range, in order
      and no two on one word. */
  lemma ReanchorStrict(abc: Alphabet, seg: Segment, newText: string)
    requires InBounds(seg.focus, |WordList(abc, seg.text)|)
    ensures Strict(ReanchorFocus(abc, seg, newText).focus, |WordList(abc, newText)|)
  {
    var c := ChangeOf(Lower(abc, seg.text), Lower(abc, newText));
    var orphan := (f: FocusWord) => OrphanOf(abc, seg, f);
    FateApart(c, orphan, seg.focus, |seg.focus|);
    SortedIsStrict(FateOf(c, orphan, seg.focus, |seg.focus|).focus, |c.after|);
  }

  lemma AddStrict(focus: seq<FocusWord>, f: FocusWord, n: nat)
    requires Strict(focus, n) && f.wordIndex < n && !TakenBy(focus, f.wordIndex)
    ensures Strict(SortBy(focus + [f], FocusKey), n)
  {
    var all := focus + [f];
    forall k, l | 0 <= k < l < |all| ensures Apart()(all[k], all[l]) {
      assert focus[k].wordIndex != f.wordIndex;
      if l < |focus| { StrictAt(focus, n, k, l); }
    }
    forall k | 0 <= k < |all| ensures InRange(n)(all[k]) { if k < |focus| { StrictAt(focus, n, k, k); } }
    SortedIsStrict(all, n);
  }

  ghost function Rising(): (FocusWord, FocusWord) -> bool { (f: FocusWord, g: FocusWord) => f.wordIndex < g.wordIndex }

  lemma StrictIsChain(focus: seq<FocusWord>, n: nat)
    ensures Strict(focus, n) <==> Chain(focus, InRange(n), Rising())
  {
    if Chain(focus, InRange(n), Rising()) {
      forall k | 0 <= k < |focus| ensures focus[k].wordIndex < n { assert InRange(n)(focus[k]); }
      forall k, l | 0 <= k < l < |focus| ensures focus[k].wordIndex < focus[l].wordIndex {
        assert Rising()(focus[k], focus[l]);
      }
    }
  }

  lemma {:induction false} WithoutStrict(focus: seq<FocusWord>, i: nat, n: nat)
    requires Strict(focus, n)
    ensures Strict(WithoutIndex(focus, i), n)
    ensures forall f :: f in WithoutIndex(focus, i) <==> f in focus && f.wordIndex != i
    decreases |focus|
  {
    if focus != [] {
      var init, last := focus[..|focus| - 1], focus[|focus| - 1];
      assert focus == init + [last];
      WithoutStrict(init, i, n);
      StrictIsChain(focus, n);
      StrictIsChain(WithoutIndex(init, i), n);
      ChainParts(init, [last], InRange(n), Rising());
      if last.wordIndex != i {
        ChainConcat(WithoutIndex(init, i), [last], InRange(n), Rising());
        StrictIsChain(WithoutIndex(focus, i), n);
      } else {
        assert WithoutIndex(focus, i) == WithoutIndex(init, i);
      }
    }
  }

  // ----- One continuous text -----

  function Flat(lists: seq<seq<string>>, n: nat): seq<string>
    requires n <= |lists|
  {
    if n == 0 then [] else Flat(lists, n - 1) + lists[n - 1]
  }

  lemma {:induction false} FlatAt(lists: seq<seq<string>>, n: nat, k: nat, i: nat)
    requires k < n <= |lists| && i < |lists[k]|
    ensures |Flat(lists, k)| + i < |Flat(lists, n)| && Flat(lists, n)[|Flat(lists, k)| + i] == lists[k][i]
  {
    if k < n - 1 { FlatAt(lists, n - 1, k, i); }
  }

  function WordsIn(abc: Alphabet): Segment -> seq<string> { (s: Segment) => WordList(abc, s.text) }

  /** The words of every sentence. */
  function WordLists(abc: Alphabet, segs: seq<Segment>): (lists: seq<seq<string>>)
    ensures |lists| == |segs|
  {
    Each(WordsIn(abc), segs, |segs|)
  }

  lemma WordsAt(abc: Alphabet, segs: seq<Segment>, k: nat)
    requires k < |segs|
    ensures WordLists(abc, segs)[k] == WordList(abc, segs[k].text)
  {
    EachAt(WordsIn(abc), segs, |segs|, k);
  }

  lemma {:induction false} JoinSnoc(parts: seq<string>, x: string)
    ensures Join(parts + [x]) == if parts == [] then x else Join(parts) + " " + x
    decreases |parts|
  {
    if parts != [] {
      var w, rest := parts[0], parts[1..];
      JoinSnoc(rest, x);
      SnocMoves(w, rest, x);
      JoinCons(w, rest + [x]);
      assert parts == [w] + rest;
      JoinedSnoc(w, rest, x, Join(rest), Join(parts), Join(parts + [x]));
    }
  }

  lemma JoinedSnoc(w: string, rest: seq<string>, x: string, tail: string, all: string, more: string)
    requires all == if rest == [] then w else w + " " + tail
    requires more == w + " " + (if rest == [] then x else tail + " " + x)
    ensures more == all + " " + x
  {
    var a, b := w + " ", " " + x;
    assert a + (tail + b) == (a + tail) + b;
    assert tail + " " + x == tail + b && (w + " " + tail) + " " + x == (a + tail) + b;
  }

  lemma SnocMoves(w: string, rest: seq<string>, x: string)
    ensures ([w] + rest) + [x] == [w] + (rest + [x])
  {}

  lemma WordsOfEmpty(abc: Alphabet)
    ensures WordList(abc, "") == []
  {}

  /** One more sentence adds its words, whether or not it adds text. */
  lemma JoinedStep(abc: Alphabet, parts: seq<string>, s: Segment)
    requires Lawful(abc)
    ensures Blank(s) ==> WordList(abc, s.text) == []
    ensures WordList(abc, Join(parts + (if Blank(s) then [] else [Trim(s.text)])))
            == WordList(abc, Join(parts)) + WordList(abc, s.text)
  {
    WordsOfTrim(abc, s.text);
    WordsOfEmpty(abc);
    if Blank(s) {
      assert parts + [] == parts;
    } else {
      JoinSnoc(parts, Trim(s.text));
      if parts != [] { WordsOfJoin(abc, Join(parts), Trim(s.text)); }
    }
  }

  /** Lists that grow by one list at a time are flat. */
  lemma {:induction false} GrowsFlat(lists: seq<seq<string>>, got: nat -> seq<string>, n: nat)
    requires n <= |lists| && got(0) == [] && forall k | 0 <= k < |lists| :: got(k + 1) == got(k) + lists[k]
    ensures got(n) == Flat(lists, n)
  {
    if n > 0 { GrowsFlat(lists, got, n - 1); }
  }

  function WordsOfFirst(abc: Alphabet, segs: seq<Segment>): nat -> seq<string> {
    (n: nat) => if n <= |segs| then WordList(abc, Join(Texts(segs, n))) else []
  }

  lemma JoinedWords(abc: Alphabet, segs: seq<Segment>)
    requires Lawful(abc)
    ensures WordList(abc, Join(Texts(segs, |segs|))) == Flat(WordLists(abc, segs), |segs|)
  {
    WordsOfEmpty(abc);
    forall k | 0 <= k < |segs| ensures WordsOfFirst(abc, segs)(k + 1) == WordsOfFirst(abc, segs)(k) + WordLists(abc, segs)[k] {
      OneMore(abc, segs, k);
    }
    GrowsFlat(WordLists(abc, segs), WordsOfFirst(abc, segs), |segs|);
  }

  lemma OneMore(abc: Alphabet, segs: seq<Segment>, k: nat)
    requires Lawful(abc) && k < |segs|
    ensures WordsOfFirst(abc, segs)(k + 1) == WordsOfFirst(abc, segs)(k) + WordLists(abc, segs)[k]
  {
    WordsAt(abc, segs, k);
    TextsGrow(segs, k);
    JoinedStep(abc, Texts(segs, k), segs[k]);
  }

  lemma TextsGrow(segs: seq<Segment>, k: nat)
    requires k < |segs|
    ensures Texts(segs, k + 1) == Texts(segs, k) + (if Blank(segs[k]) then [] else [Trim(segs[k].text)])
  {}

  lemma {:induction false} FocusJoined(parts: seq<Part>, n: nat, k: nat, f: FocusWord)
    requires k < n <= |parts| && !parts[k].blank && f in parts[k].focus
    ensures f.(wordIndex := f.wordIndex + Offset(parts, k)) in JoinedFocus(parts, n)
  {
    if k == n - 1 {
      var t :| 0 <= t < |parts[k].focus| && parts[k].focus[t] == f;
      assert MoveFocus(parts[k].focus, Offset(parts, k))[t] in JoinedFocus(parts, n);
    } else {
      FocusJoined(parts, n - 1, k, f);
    }
  }

  /** A sentence adds a piece of text exactly when it has something that is no space. */
  lemma BlankIs(s: Segment)
    ensures Blank(s) <==> Fields(s.text) == []
  {
    TrimEmpty(s.text);
  }

  lemma HasWordNotBlank(abc: Alphabet, s: Segment)
    requires Lawful(abc) && WordList(abc, s.text) != []
    ensures !Blank(s)
  {
    WordsOfTrim(abc, s.text);
  }

  predicate SameWordAt(a: seq<string>, i: nat, b: seq<string>, j: nat) { i < |a| && j < |b| && a[i] == b[j] }

  /** Joining the sentences carries every focus word onto the same word of the one text. */
  lemma JoinKeepsWords(abc: Alphabet, segs: seq<Segment>, newId: string, k: nat, f: FocusWord)
    requires Lawful(abc) && k < |segs| && f in segs[k].focus && f.wordIndex < |WordList(abc, segs[k].text)|
    ensures var one, to := Joined(abc, segs, newId), f.wordIndex + Offset(Parts(abc, segs), k);
            && f.(wordIndex := to) in one.focus
            && SameWordAt(WordList(abc, one.text), to, WordList(abc, segs[k].text), f.wordIndex)
  {
    KeptInJoin(abc, segs, k, f, Joined(abc, segs, newId).text, Joined(abc, segs, newId).focus);
  }

  lemma {:induction false} KeptInJoin(abc: Alphabet, segs: seq<Segment>, k: nat, f: FocusWord, text: string, focus: seq<FocusWord>)
    requires Lawful(abc) && k < |segs| && f in segs[k].focus && f.wordIndex < |WordList(abc, segs[k].text)|
    requires text == Join(Texts(segs, |segs|)) && focus == JoinedFocus(Parts(abc, segs), |segs|)
    ensures var to := f.wordIndex + Offset(Parts(abc, segs), k);
            && f.(wordIndex := to) in focus
            && SameWordAt(WordList(abc, text), to, WordList(abc, segs[k].text), f.wordIndex)
  {
    HasWordNotBlank(abc, segs[k]);
    PartAt(abc, segs, k);
    WordsAt(abc, segs, k);
    FocusJoined(Parts(abc, segs), |segs|, k, f);
    WordJoined(abc, segs, k, f.wordIndex, text);
  }

  /** A sentence's words and its part agree on the number, and a sentence without text has none. */
  ghost predicate Fits(words: seq<string>, part: Part) { part.size == |words| && (part.blank ==> words == []) }

  ghost predicate AllFit(lists: seq<seq<string>>, parts: seq<Part>) {
    |lists| == |parts| && forall k | 0 <= k < |lists| :: Fits(lists[k], parts[k])
  }

  lemma PartsFit(abc: Alphabet, segs: seq<Segment>)
    requires Lawful(abc)
    ensures AllFit(WordLists(abc, segs), Parts(abc, segs))
  {
    forall k | 0 <= k < |segs| ensures Fits(WordLists(abc, segs)[k], Parts(abc, segs)[k]) {
      PartAt(abc, segs, k);
      WordsAt(abc, segs, k);
      WordsOfTrim(abc, segs[k].text);
      WordsOfEmpty(abc);
    }
  }

  lemma {:induction false} OffsetIs(lists: seq<seq<string>>, parts: seq<Part>, n: nat)
    requires AllFit(lists, parts) && n <= |lists|
    ensures |Flat(lists, n)| == Offset(parts, n)
  {
    if n > 0 {
      OffsetIs(lists, parts, n - 1);
      assert Fits(lists[n - 1], parts[n - 1]);
    }
  }

  lemma LandsOn(lists: seq<seq<string>>, parts: seq<Part>, k: nat, i: nat, words: seq<string>)
    requires AllFit(lists, parts) && k < |lists| && i < |lists[k]| && words == Flat(lists, |lists|)
    ensures SameWordAt(words, Offset(parts, k) + i, lists[k], i)
  {
    OffsetIs(lists, parts, k);
    FlatAt(lists, |lists|, k, i);
  }

  lemma WordJoined(abc: Alphabet, segs: seq<Segment>, k: nat, i: nat, text: string)
    requires Lawful(abc) && k < |segs| && i < |WordLists(abc, segs)[k]| && text == Join(Texts(segs, |segs|))
    ensures SameWordAt(WordList(abc, text), Offset(Parts(abc, segs), k) + i, WordLists(abc, segs)[k], i)
  {
    PartsFit(abc, segs);
    JoinedWords(abc, segs);
    LandsOn(WordLists(abc, segs), Parts(abc, segs), k, i, WordList(abc, text));
  }

  lemma JoinedLength(abc: Alphabet, segs: seq<Segment>)
    requires Lawful(abc)
    ensures |WordList(abc, Join(Texts(segs, |segs|)))| == Offset(Parts(abc, segs), |segs|)
  {
    PartsFit(abc, segs);
    JoinedWords(abc, segs);
    OffsetIs(WordLists(abc, segs), Parts(abc, segs), |segs|);
  }

  lemma MoveStrict(focus: seq<FocusWord>, n: nat, offset: nat)
    requires Strict(focus, n)
    ensures Strict(MoveFocus(focus, offset), n + offset)
    ensures forall f | f in MoveFocus(focus, offset) :: f.wordIndex >= offset
  {
    var m := MoveFocus(focus, offset);
    forall k, l | 0 <= k < l < |m| ensures m[k].wordIndex < m[l].wordIndex { StrictAt(focus, n, k, l); }
    forall k | 0 <= k < |m| ensures m[k].wordIndex < n + offset { StrictAt(focus, n, k, k); }
  }

  lemma StrictConcat(a: seq<FocusWord>, b: seq<FocusWord>, m: nat, n: nat)
    requires Strict(a, m) && Strict(b, n) && m <= n && forall f | f in b :: f.wordIndex >= m
    ensures Strict(a + b, n)
  {
    var c := a + b;
    forall k, l | 0 <= k < l < |c| ensures c[k].wordIndex < c[l].wordIndex {
      if l < |a| { StrictAt(a, m, k, l); }
      else if k >= |a| { StrictAt(b, n, k - |a|, l - |a|); }
      else { StrictAt(a, m, k, k); assert b[l - |a|] in b; }
    }
    forall k | 0 <= k < |c| ensures c[k].wordIndex < n {
      if k < |a| { StrictAt(a, m, k, k); } else { StrictAt(b, n, k - |a|, k - |a|); }
    }
  }

  lemma {:induction false} JoinedStrict(parts: seq<Part>, n: nat)
    requires n <= |parts| && forall k | 0 <= k < |parts| :: Strict(parts[k].focus, parts[k].size)
    ensures Strict(JoinedFocus(parts, n), Offset(parts, n))
  {
    if n > 0 {
      JoinedStrict(parts, n - 1);
      var s, offset := parts[n - 1], Offset(parts, n - 1);
      var before := JoinedFocus(parts, n - 1);
      if s.blank {
        assert JoinedFocus(parts, n) == before;
      } else {
        MoveStrict(s.focus, s.size, offset);
        StrictConcat(before, MoveFocus(s.focus, offset), offset, offset + s.size);
      }
    }
  }

  // ----- Every edit keeps the focus words in place -----

  ghost predicate GoodSegment(abc: Alphabet, s: Segment) { Strict(s.focus, |WordList(abc, s.text)|) }

  ghost predicate GoodDoc(abc: Alphabet, doc: Doc) {
    && (forall k | 0 <= k < |doc.segments| :: GoodSegment(abc, doc.segments[k]))
    && (forall k, l | 0 <= k < l < |doc.segments| :: doc.segments[k].id != doc.segments[l].id)
  }

  lemma OneSegment(doc: Doc, id: string, k: nat, seg: Segment)
    requires forall a, b | 0 <= a < b < |doc.segments| :: doc.segments[a].id != doc.segments[b].id
    requires k < |doc.segments| && doc.segments[k].id == id && seg in doc.segments && seg.id == id
    ensures doc.segments[k] == seg
  {
    var l :| 0 <= l < |doc.segments| && doc.segments[l] == seg;
  }

  lemma SetTextGood(abc: Alphabet, doc: Doc, id: string, text: string)
    requires GoodDoc(abc, doc)
    ensures GoodDoc(abc, SetSegmentText(abc, doc, id, text))
  {
    var found := FindSegment(doc.segments, id, 0);
    if found.Some? {
      var out, fate := SetSegmentText(abc, doc, id, text).segments, ReanchorFocus(abc, found.value, text);
      assert GoodSegment(abc, found.value);
      ReanchorStrict(abc, found.value, text);
      forall k | 0 <= k < |out| ensures GoodSegment(abc, out[k]) && out[k].id == doc.segments[k].id {
        assert GoodSegment(abc, doc.segments[k]);
      }
    }
  }

  lemma ToggleGood(abc: Alphabet, doc: Doc, id: string, i: nat, newId: string)
    requires GoodDoc(abc, doc)
    ensures GoodDoc(abc, ToggleFocus(abc, doc, id, i, newId))
  {
    var out := ToggleFocus(abc, doc, id, i, newId).segments;
    forall k | 0 <= k < |out| ensures GoodSegment(abc, out[k]) && out[k].id == doc.segments[k].id {
      var s := doc.segments[k];
      assert GoodSegment(abc, s);
      if s.id == id && i < |WordList(abc, s.text)| {
        WithoutStrict(s.focus, i, |WordList(abc, s.text)|);
        if !TakenBy(s.focus, i) { AddStrict(s.focus, FocusWord(newId, i, ""), |WordList(abc, s.text)|); }
      }
    }
  }

  lemma PutBackGood(abc: Alphabet, doc: Doc, orphanId: string)
    requires GoodDoc(abc, doc)
    ensures GoodDoc(abc, PutBack(abc, doc, orphanId))
  {
    var o := FindOrphan(doc.orphans, orphanId, 0);
    if o.Some? && FindSegment(doc.segments, o.value.segmentId, 0).Some? {
      var seg := FindSegment(doc.segments, o.value.segmentId, 0).value;
      var i := PutBackIndex(abc, seg, o.value);
      if i.Some? { RestoredGood(abc, doc, o.value, seg, i.value); }
    }
  }

  lemma RestoredGood(abc: Alphabet, doc: Doc, o: FocusOrphan, seg: Segment, i: nat)
    requires GoodDoc(abc, doc) && seg in doc.segments && seg.id == o.segmentId
    requires i < |WordList(abc, seg.text)| && !TakenBy(seg.focus, i)
    ensures GoodDoc(abc, Restored(doc, o, i))
  {
    var out := Restored(doc, o, i).segments;
    forall k | 0 <= k < |out| ensures GoodSegment(abc, out[k]) && out[k].id == doc.segments[k].id {
      var s := doc.segments[k];
      assert GoodSegment(abc, s);
      if s.id == seg.id {
        OneSegment(doc, seg.id, k, seg);
        AddStrict(s.focus, FocusWord(o.id, i, o.why), |WordList(abc, s.text)|);
      }
    }
  }

  lemma SetModeGood(abc: Alphabet, doc: Doc, whole: bool, newId: string)
    requires Lawful(abc) && GoodDoc(abc, doc)
    ensures GoodDoc(abc, SetMode(abc, doc, whole, newId))
  {
    if whole && !doc.whole {
      var parts := Parts(abc, doc.segments);
      forall k | 0 <= k < |parts| ensures Strict(parts[k].focus, parts[k].size) {
        PartAt(abc, doc.segments, k);
        assert GoodSegment(abc, doc.segments[k]);
      }
      JoinedStrict(parts, |parts|);
      JoinedLength(abc, doc.segments);
    }
  }

  datatype Edit =
    | Retext(segmentId: string, text: string)
    | Restore(orphanId: string)
    | Toggle(segmentId: string, wordIndex: nat, newId: string)
    | Switch(whole: bool, newId: string)

  function Apply(abc: Alphabet, doc: Doc, edit: Edit): Doc {
    match edit
    case Retext(id, text) => SetSegmentText(abc, doc, id, text)
    case Restore(id) => PutBack(abc, doc, id)
    case Toggle(id, i, newId) => ToggleFocus(abc, doc, id, i, newId)
    case Switch(whole, newId) => SetMode(abc, doc, whole, newId)
  }

  function ApplyAll(abc: Alphabet, doc: Doc, edits: seq<Edit>): Doc {
    if edits == [] then doc else Apply(abc, ApplyAll(abc, doc, edits[..|edits| - 1]), edits[|edits| - 1])
  }

  /** Whatever the author does, the focus words of every sentence stay in range, in order and on
      different words. */
  lemma {:induction false} EditsKeepFocus(abc: Alphabet, doc: Doc, edits: seq<Edit>)
    requires Lawful(abc) && GoodDoc(abc, doc)
    ensures GoodDoc(abc, ApplyAll(abc, doc, edits))
    decreases |edits|
  {
    if edits != [] {
      var before := ApplyAll(abc, doc, edits[..|edits| - 1]);
      EditsKeepFocus(abc, doc, edits[..|edits| - 1]);
      match edits[|edits| - 1] {
        case Retext(id, text) => SetTextGood(abc, before, id, text);
        case Restore(id) => PutBackGood(abc, before, id);
        case Toggle(id, i, newId) => ToggleGood(abc, before, id, i, newId);
        case Switch(whole, newId) => SetModeGood(abc, before, whole, newId);
      }
    }
  }
}
