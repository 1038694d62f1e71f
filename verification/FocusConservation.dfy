/** No focus word is lost, however the sentences are rewritten, joined and put back. */
module FocusConservation {
  import opened Sequences
  import opened Options
  import opened Tokens
  import opened Sorting
  import opened FocusReanchor
  import opened FocusSurvival

  datatype Mark = Mark(id: string, why: string)

  function MarkOf(f: FocusWord): Mark { Mark(f.id, f.why) }

  function InFocus(x: Mark, focus: seq<FocusWord>): nat {
    if focus == [] then 0 else InFocus(x, focus[..|focus| - 1]) + Once(MarkOf(focus[|focus| - 1]) == x)
  }

  function InOrphans(x: Mark, orphans: seq<FocusOrphan>): nat {
    if orphans == [] then 0
    else
      var last := orphans[|orphans| - 1];
      InOrphans(x, orphans[..|orphans| - 1]) + Once(Mark(last.id, last.why) == x)
  }

  function InSegments(x: Mark, segs: seq<Segment>, n: nat): nat
    requires n <= |segs|
  {
    if n == 0 then 0 else InSegments(x, segs, n - 1) + InFocus(x, segs[n - 1].focus)
  }

  /** How often the document holds a focus word with this id and reason, placed or waiting. */
  function Count(x: Mark, doc: Doc): nat { InSegments(x, doc.segments, |doc.segments|) + InOrphans(x, doc.orphans) }

  ghost predicate SameFocusWords(a: Doc, b: Doc) { forall x: Mark :: Count(x, a) == Count(x, b) }

  lemma InFocusSnoc(x: Mark, focus: seq<FocusWord>, f: FocusWord)
    ensures InFocus(x, focus + [f]) == InFocus(x, focus) + Once(MarkOf(f) == x)
  {
    assert (focus + [f])[..|focus|] == focus;
  }

  lemma InOrphansSnoc(x: Mark, orphans: seq<FocusOrphan>, o: FocusOrphan)
    ensures InOrphans(x, orphans + [o]) == InOrphans(x, orphans) + Once(Mark(o.id, o.why) == x)
  {
    assert (orphans + [o])[..|orphans|] == orphans;
  }

  lemma {:induction false} InFocusConcat(x: Mark, a: seq<FocusWord>, b: seq<FocusWord>)
    ensures InFocus(x, a + b) == InFocus(x, a) + InFocus(x, b)
    decreases |b|
  {
    if b == [] {
      assert a + b == a;
    } else {
      var init, last := b[..|b| - 1], b[|b| - 1];
      assert a + b == (a + init) + [last];
      InFocusConcat(x, a, init);
      InFocusSnoc(x, a + init, last);
    }
  }

  lemma {:induction false} InOrphansConcat(x: Mark, a: seq<FocusOrphan>, b: seq<FocusOrphan>)
    ensures InOrphans(x, a + b) == InOrphans(x, a) + InOrphans(x, b)
    decreases |b|
  {
    if b == [] {
      assert a + b == a;
    } else {
      var init, last := b[..|b| - 1], b[|b| - 1];
      assert a + b == (a + init) + [last];
      InOrphansConcat(x, a, init);
      InOrphansSnoc(x, a + init, last);
    }
  }

  lemma {:induction false} InInserted(x: Mark, f: FocusWord, focus: seq<FocusWord>)
    ensures InFocus(x, Insert(f, focus, FocusKey)) == InFocus(x, focus) + Once(MarkOf(f) == x)
    decreases |focus|
  {
    if focus == [] || Leq(FocusKey(focus[|focus| - 1]), FocusKey(f)) {
      InFocusSnoc(x, focus, f);
    } else {
      var init, last := focus[..|focus| - 1], focus[|focus| - 1];
      InInserted(x, f, init);
      InFocusSnoc(x, Insert(f, init, FocusKey), last);
    }
  }

  lemma {:induction false} InSorted(x: Mark, focus: seq<FocusWord>)
    ensures InFocus(x, SortBy(focus, FocusKey)) == InFocus(x, focus)
    decreases |focus|
  {
    if focus != [] {
      InSorted(x, focus[..|focus| - 1]);
      InInserted(x, focus[|focus| - 1], SortBy(focus[..|focus| - 1], FocusKey));
    }
  }

  lemma {:induction false} InMoved(x: Mark, focus: seq<FocusWord>, shift: nat)
    ensures InFocus(x, MoveFocus(focus, shift)) == InFocus(x, focus)
    decreases |focus|
  {
    if focus != [] {
      InMoved(x, focus[..|focus| - 1], shift);
      assert MoveFocus(focus, shift)[..|focus| - 1] == MoveFocus(focus[..|focus| - 1], shift);
    }
  }

  // ----- Rewriting a sentence -----

  ghost predicate Keeps(orphan: FocusWord -> FocusOrphan) {
    forall f: FocusWord :: orphan(f).id == f.id && orphan(f).why == f.why
  }

  lemma {:induction false} FateConserves(x: Mark, c: Change, orphan: FocusWord -> FocusOrphan, focus: seq<FocusWord>, n: nat)
    requires c.suffix <= |c.before| && c.suffix <= |c.after| && n <= |focus| && Keeps(orphan)
    ensures var st := FateOf(c, orphan, focus, n);
            InFocus(x, st.focus) + InOrphans(x, st.orphans) == InFocus(x, focus[..n])
  {
    if n > 0 {
      var st, f := FateOf(c, orphan, focus, n - 1), focus[n - 1];
      var t := Target(c, f.wordIndex);
      FateConserves(x, c, orphan, focus, n - 1);
      OneFate(x, st, FateOf(c, orphan, focus, n), focus, n - 1, t, orphan(f));
    }
  }

  lemma OneFate(x: Mark, st: Fate, next: Fate, focus: seq<FocusWord>, n: nat, t: Option<nat>, o: FocusOrphan)
    requires n < |focus| && o.id == focus[n].id && o.why == focus[n].why
    requires InFocus(x, st.focus) + InOrphans(x, st.orphans) == InFocus(x, focus[..n])
    requires next == if t.None? || TakenBy(st.focus, t.value) then Fate(st.focus, st.orphans + [o])
                     else Fate(st.focus + [focus[n].(wordIndex := t.value)], st.orphans)
    ensures InFocus(x, next.focus) + InOrphans(x, next.orphans) == InFocus(x, focus[..n + 1])
  {
    assert focus[..n + 1] == focus[..n] + [focus[n]];
    if t.None? || TakenBy(st.focus, t.value) {
      OrphanedOnce(x, st, focus[..n], focus[n], o);
    } else {
      PlacedOnce(x, st, focus[..n], focus[n], t.value);
    }
  }

  lemma OrphanedOnce(x: Mark, st: Fate, before: seq<FocusWord>, f: FocusWord, o: FocusOrphan)
    requires o.id == f.id && o.why == f.why && InFocus(x, st.focus) + InOrphans(x, st.orphans) == InFocus(x, before)
    ensures InFocus(x, st.focus) + InOrphans(x, st.orphans + [o]) == InFocus(x, before + [f])
  {
    InOrphansSnoc(x, st.orphans, o);
    InFocusSnoc(x, before, f);
  }

  lemma PlacedOnce(x: Mark, st: Fate, before: seq<FocusWord>, f: FocusWord, i: nat)
    requires InFocus(x, st.focus) + InOrphans(x, st.orphans) == InFocus(x, before)
    ensures InFocus(x, st.focus + [f.(wordIndex := i)]) + InOrphans(x, st.orphans) == InFocus(x, before + [f])
  {
    InFocusSnoc(x, st.focus, f.(wordIndex := i));
    InFocusSnoc(x, before, f);
  }

  /** Every focus word of the sentence is placed or becomes an orphan, once. */
  lemma SentenceConserves(x: Mark, abc: Alphabet, seg: Segment, newText: string)
    ensures var fate := ReanchorFocus(abc, seg, newText);
            InFocus(x, fate.focus) + InOrphans(x, fate.orphans) == InFocus(x, seg.focus)
  {
    var c := ChangeOf(Lower(abc, seg.text), Lower(abc, newText));
    var orphan := (f: FocusWord) => OrphanOf(abc, seg, f);
    FateConserves(x, c, orphan, seg.focus, |seg.focus|);
    assert seg.focus[..|seg.focus|] == seg.focus;
    InSorted(x, FateOf(c, orphan, seg.focus, |seg.focus|).focus);
  }

  ghost predicate UniqueSegments(segs: seq<Segment>) { forall k, l | 0 <= k < l < |segs| :: segs[k].id != segs[l].id }

  /** Changing one sentence changes the count by what changed in it. */
  lemma {:induction false} MapCounts(x: Mark, segs: seq<Segment>, f: Segment -> Segment, k: nat, n: nat)
    requires UniqueSegments(segs) && k < |segs| && n <= |segs|
    ensures var out := MapSegment(segs, segs[k].id, f);
            InSegments(x, out, n) + (if k < n then InFocus(x, segs[k].focus) else 0)
            == InSegments(x, segs, n) + (if k < n then InFocus(x, f(segs[k]).focus) else 0)
  {
    if n > 0 { MapCounts(x, segs, f, k, n - 1); }
  }

  lemma SetTextConserves(x: Mark, abc: Alphabet, doc: Doc, id: string, text: string)
    requires UniqueSegments(doc.segments)
    ensures Count(x, SetSegmentText(abc, doc, id, text)) == Count(x, doc)
  {
    var found := FindSegment(doc.segments, id, 0);
    if found.Some? {
      var k :| 0 <= k < |doc.segments| && doc.segments[k] == found.value;
      var fate := ReanchorFocus(abc, found.value, text);
      MapCounts(x, doc.segments, (s: Segment) => s.(text := text, focus := fate.focus), k, |doc.segments|);
      SentenceConserves(x, abc, found.value, text);
      InOrphansConcat(x, doc.orphans, fate.orphans);
    }
  }

  // ----- Putting back -----

  ghost predicate UniqueIds(doc: Doc) {
    && (forall x, y | Count(x, doc) > 0 && Count(y, doc) > 0 && x.id == y.id :: x == y)
    && (forall x: Mark :: Count(x, doc) <= 1)
  }

  lemma {:induction false} OrphanCounts(orphans: seq<FocusOrphan>, o: FocusOrphan)
    requires o in orphans
    ensures InOrphans(Mark(o.id, o.why), orphans) > 0
    decreases |orphans|
  {
    var init, last := orphans[..|orphans| - 1], orphans[|orphans| - 1];
    assert orphans == init + [last];
    if o != last { OrphanCounts(init, o); }
  }

  lemma {:induction false} OthersCount(x: Mark, orphans: seq<FocusOrphan>, id: string)
    ensures InOrphans(x, Others(orphans, OrphanId(), id)) == if x.id == id then 0 else InOrphans(x, orphans)
    decreases |orphans|
  {
    if orphans != [] {
      var init, last := orphans[..|orphans| - 1], orphans[|orphans| - 1];
      OthersCount(x, init, id);
      InOrphansSnoc(x, Others(init, OrphanId(), id), last);
      if last.id == id { assert Others(orphans, OrphanId(), id) == Others(init, OrphanId(), id); }
    }
  }

  lemma RestoredConserves(x: Mark, doc: Doc, o: FocusOrphan, k: nat, i: nat)
    requires UniqueSegments(doc.segments) && UniqueIds(doc) && o in doc.orphans
    requires k < |doc.segments| && doc.segments[k].id == o.segmentId
    ensures Count(x, Restored(doc, o, i)) == Count(x, doc)
  {
    var g, s := FocusWord(o.id, i, o.why), doc.segments[k];
    OrphanCounts(doc.orphans, o);
    assert Count(Mark(o.id, o.why), doc) == 1;
    OthersCount(x, doc.orphans, o.id);
    MapCounts(x, doc.segments, (s: Segment) => s.(focus := SortBy(s.focus + [g], FocusKey)), k, |doc.segments|);
    InSorted(x, s.focus + [g]);
    InFocusSnoc(x, s.focus, g);
  }

  lemma PutBackConserves(x: Mark, abc: Alphabet, doc: Doc, orphanId: string)
    requires UniqueSegments(doc.segments) && UniqueIds(doc)
    ensures Count(x, PutBack(abc, doc, orphanId)) == Count(x, doc)
  {
    var o := FindOrphan(doc.orphans, orphanId, 0);
    if o.Some? {
      var seg := FindSegment(doc.segments, o.value.segmentId, 0);
      if seg.Some? && PutBackIndex(abc, seg.value, o.value).Some? {
        var k :| 0 <= k < |doc.segments| && doc.segments[k] == seg.value;
        RestoredConserves(x, doc, o.value, k, PutBackIndex(abc, seg.value, o.value).value);
      }
    }
  }

  // ----- Joining -----

  function InParts(x: Mark, parts: seq<Part>, n: nat): nat
    requires n <= |parts|
  {
    if n == 0 then 0 else InParts(x, parts, n - 1) + InFocus(x, parts[n - 1].focus)
  }

  lemma {:induction false} JoinedCounts(x: Mark, parts: seq<Part>, n: nat)
    requires n <= |parts| && forall k | 0 <= k < |parts| :: parts[k].blank ==> parts[k].focus == []
    ensures InFocus(x, JoinedFocus(parts, n)) == InParts(x, parts, n)
  {
    if n > 0 {
      JoinedCounts(x, parts, n - 1);
      PartCounts(x, JoinedFocus(parts, n - 1), parts[n - 1], Offset(parts, n - 1), JoinedFocus(parts, n));
    }
  }

  lemma PartCounts(x: Mark, before: seq<FocusWord>, s: Part, shift: nat, after: seq<FocusWord>)
    requires after == before + (if s.blank then [] else MoveFocus(s.focus, shift)) && (s.blank ==> s.focus == [])
    ensures InFocus(x, after) == InFocus(x, before) + InFocus(x, s.focus)
  {
    if s.blank {
      assert after == before;
    } else {
      InFocusConcat(x, before, MoveFocus(s.focus, shift));
      InMoved(x, s.focus, shift);
    }
  }

  lemma {:induction false} PartsCount(x: Mark, abc: Alphabet, segs: seq<Segment>, n: nat)
    requires n <= |segs|
    ensures InParts(x, Parts(abc, segs), n) == InSegments(x, segs, n)
  {
    if n > 0 {
      PartsCount(x, abc, segs, n - 1);
      PartAt(abc, segs, n - 1);
    }
  }

  lemma {:induction false} RehomeCounts(x: Mark, orphans: seq<FocusOrphan>, id: string)
    ensures InOrphans(x, Rehome(orphans, id)) == InOrphans(x, orphans)
    decreases |orphans|
  {
    if orphans != [] {
      RehomeCounts(x, orphans[..|orphans| - 1], id);
      assert Rehome(orphans, id)[..|orphans| - 1] == Rehome(orphans[..|orphans| - 1], id);
    }
  }

  /** Every focus word points at a word of its sentence; sentences have ids of their own. */
  ghost predicate InRangeDoc(abc: Alphabet, doc: Doc) {
    && (forall k | 0 <= k < |doc.segments| :: InRangeSegment(abc, doc.segments[k]))
    && UniqueSegments(doc.segments)
  }

  ghost predicate InRangeSegment(abc: Alphabet, s: Segment) { InBounds(s.focus, |WordList(abc, s.text)|) }

  lemma BlankHasNone(abc: Alphabet, s: Segment)
    requires Lawful(abc)
    ensures InRangeSegment(abc, s) && Blank(s) ==> s.focus == []
  {
    WordsOfTrim(abc, s.text);
    WordsOfEmpty(abc);
    if InRangeSegment(abc, s) && s.focus != [] { assert s.focus[0].wordIndex < |WordList(abc, s.text)|; }
  }

  lemma SetModeConserves(x: Mark, abc: Alphabet, doc: Doc, whole: bool, newId: string)
    requires Lawful(abc) && InRangeDoc(abc, doc)
    ensures Count(x, SetMode(abc, doc, whole, newId)) == Count(x, doc)
  {
    if whole && !doc.whole {
      var one, segs := Joined(abc, doc.segments, newId), doc.segments;
      forall k | 0 <= k < |segs| ensures Parts(abc, segs)[k].blank ==> Parts(abc, segs)[k].focus == [] {
        assert InRangeSegment(abc, segs[k]);
        PartAt(abc, segs, k);
        BlankHasNone(abc, segs[k]);
      }
      JoinedCounts(x, Parts(abc, segs), |segs|);
      PartsCount(x, abc, segs, |segs|);
      RehomeCounts(x, doc.orphans, one.id);
      assert InSegments(x, [one], 1) == InSegments(x, [one], 0) + InFocus(x, one.focus);
    }
  }

  // ----- Over a whole run -----

  lemma SetTextInRange(abc: Alphabet, doc: Doc, id: string, text: string)
    requires InRangeDoc(abc, doc)
    ensures InRangeDoc(abc, SetSegmentText(abc, doc, id, text))
  {
    var found := FindSegment(doc.segments, id, 0);
    if found.Some? {
      var out := SetSegmentText(abc, doc, id, text).segments;
      assert InRangeSegment(abc, found.value);
      ReanchorStrict(abc, found.value, text);
      forall k | 0 <= k < |out| ensures InRangeSegment(abc, out[k]) && out[k].id == doc.segments[k].id {
        assert InRangeSegment(abc, doc.segments[k]);
      }
    }
  }

  lemma SortedInBounds(focus: seq<FocusWord>, n: nat)
    requires InBounds(focus, n)
    ensures InBounds(SortBy(focus, FocusKey), n)
  {
    var s := SortBy(focus, FocusKey);
    SortByIs(focus, FocusKey);
    forall k | 0 <= k < |s| ensures s[k].wordIndex < n { assert s[k] in focus; }
  }

  lemma RestoredInRange(abc: Alphabet, doc: Doc, o: FocusOrphan, seg: Segment, i: nat)
    requires InRangeDoc(abc, doc) && seg in doc.segments && seg.id == o.segmentId && i < |WordList(abc, seg.text)|
    ensures InRangeDoc(abc, Restored(doc, o, i))
  {
    var out := Restored(doc, o, i).segments;
    forall k | 0 <= k < |out| ensures InRangeSegment(abc, out[k]) && out[k].id == doc.segments[k].id {
      var s := doc.segments[k];
      assert InRangeSegment(abc, s);
      if s.id == seg.id {
        OneSegment(doc, seg.id, k, seg);
        SortedInBounds(s.focus + [FocusWord(o.id, i, o.why)], |WordList(abc, s.text)|);
      }
    }
  }

  lemma PutBackInRange(abc: Alphabet, doc: Doc, orphanId: string)
    requires InRangeDoc(abc, doc)
    ensures InRangeDoc(abc, PutBack(abc, doc, orphanId))
  {
    var o := FindOrphan(doc.orphans, orphanId, 0);
    if o.Some? && FindSegment(doc.segments, o.value.segmentId, 0).Some? {
      var seg := FindSegment(doc.segments, o.value.segmentId, 0).value;
      var i := PutBackIndex(abc, seg, o.value);
      if i.Some? { RestoredInRange(abc, doc, o.value, seg, i.value); }
    }
  }

  lemma {:induction false} JoinedInBounds(parts: seq<Part>, n: nat)
    requires n <= |parts| && forall k | 0 <= k < |parts| :: InBounds(parts[k].focus, parts[k].size)
    ensures InBounds(JoinedFocus(parts, n), Offset(parts, n))
  {
    if n > 0 {
      JoinedInBounds(parts, n - 1);
      assert InBounds(parts[n - 1].focus, parts[n - 1].size);
    }
  }

  lemma SetModeInRange(abc: Alphabet, doc: Doc, whole: bool, newId: string)
    requires Lawful(abc) && InRangeDoc(abc, doc)
    ensures InRangeDoc(abc, SetMode(abc, doc, whole, newId))
  {
    if whole && !doc.whole {
      var parts := Parts(abc, doc.segments);
      forall k | 0 <= k < |parts| ensures InBounds(parts[k].focus, parts[k].size) {
        PartAt(abc, doc.segments, k);
        assert InRangeSegment(abc, doc.segments[k]);
      }
      JoinedInBounds(parts, |parts|);
      JoinedLength(abc, doc.segments);
    }
  }

  /** Rewriting, putting back and joining keep every focus word, with its id and its reason, in
      whatever order the sentences list them. */
  lemma {:induction false} NoFocusIsLost(abc: Alphabet, doc: Doc, edits: seq<Edit>)
    requires Lawful(abc) && InRangeDoc(abc, doc) && UniqueIds(doc)
    requires forall k | 0 <= k < |edits| :: !edits[k].Toggle?
    ensures SameFocusWords(ApplyAll(abc, doc, edits), doc) && InRangeDoc(abc, ApplyAll(abc, doc, edits))
    decreases |edits|
  {
    if edits != [] {
      var init, edit := edits[..|edits| - 1], edits[|edits| - 1];
      var before := ApplyAll(abc, doc, init);
      NoFocusIsLost(abc, doc, init);
      StepConserves(abc, before, edit);
      StepInRange(abc, before, edit);
      forall x: Mark ensures Count(x, ApplyAll(abc, doc, edits)) == Count(x, doc) {
        assert Count(x, before) == Count(x, doc);
        assert Count(x, Apply(abc, before, edit)) == Count(x, before);
      }
    }
  }

  lemma StepInRange(abc: Alphabet, doc: Doc, edit: Edit)
    requires Lawful(abc) && InRangeDoc(abc, doc) && !edit.Toggle?
    ensures InRangeDoc(abc, Apply(abc, doc, edit))
  {
    match edit
    case Retext(id, text) => SetTextInRange(abc, doc, id, text);
    case Restore(id) => PutBackInRange(abc, doc, id);
    case Switch(whole, newId) => SetModeInRange(abc, doc, whole, newId);
  }

  lemma StepConserves(abc: Alphabet, doc: Doc, edit: Edit)
    requires Lawful(abc) && InRangeDoc(abc, doc) && UniqueIds(doc) && !edit.Toggle?
    ensures SameFocusWords(Apply(abc, doc, edit), doc)
  {
    forall x: Mark ensures Count(x, Apply(abc, doc, edit)) == Count(x, doc) {
      match edit {
        case Retext(id, text) => SetTextConserves(x, abc, doc, id, text);
        case Restore(id) => PutBackConserves(x, abc, doc, id);
        case Switch(whole, newId) => SetModeConserves(x, abc, doc, whole, newId);
      }
    }
  }
}
