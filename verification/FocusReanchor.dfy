/** The focus words of a dictation under edits: a sentence rewritten, an orphan put back, all
    sentences joined into one text. */
module FocusReanchor {
  import opened Sequences
  import opened Options
  import opened Text
  import opened Tokens
  import opened Sorting
  import opened Surfaces

  datatype FocusWord = FocusWord(id: string, wordIndex: nat, why: string)
  datatype FocusOrphan = FocusOrphan(id: string, segmentId: string, surface: string, why: string)
  datatype Segment = Segment(id: string, text: string, why: string, focus: seq<FocusWord>)
  datatype Doc = Doc(whole: bool, segments: seq<Segment>, orphans: seq<FocusOrphan>)

  function Lower(abc: Alphabet, text: string): seq<string> { LowerAll(abc, WordList(abc, text)) }

  function FocusKey(f: FocusWord): (int, int) { (f.wordIndex, 0) }

  // ----- The edited stretch, in words -----

  function Prefix(a: seq<string>, b: seq<string>, k: nat): (n: nat)
    requires k <= |a| && k <= |b|
    ensures k <= n <= |a| && n <= |b| && forall t | k <= t < n :: a[t] == b[t]
    decreases |a| - k
  {
    if k < |a| && k < |b| && a[k] == b[k] then Prefix(a, b, k + 1) else k
  }

  function Suffix(a: seq<string>, b: seq<string>, prefix: nat, k: nat): (n: nat)
    requires prefix + k <= |a| && prefix + k <= |b|
    ensures k <= n && prefix + n <= |a| && prefix + n <= |b| && forall t | k <= t < n :: SameFromEnd(a, b, t)
    decreases |a| - k
  {
    if k < |a| - prefix && k < |b| - prefix && SameFromEnd(a, b, k) then Suffix(a, b, prefix, k + 1) else k
  }

  /** The words of a sentence before and after, and how many agree at either end. */
  datatype Change = Change(before: seq<string>, after: seq<string>, prefix: nat, suffix: nat)

  function ChangeOf(before: seq<string>, after: seq<string>): (c: Change)
    ensures c.prefix + c.suffix <= |before| && c.prefix + c.suffix <= |after|
  {
    var prefix := Prefix(before, after, 0);
    Change(before, after, prefix, Suffix(before, after, prefix, 0))
  }

  method FindChange(before: seq<string>, after: seq<string>) returns (c: Change)
    ensures c == ChangeOf(before, after)
  {
    var prefix: nat := 0;
    while prefix < |before| && prefix < |after| && before[prefix] == after[prefix]
      invariant prefix <= |before| && prefix <= |after|
      invariant Prefix(before, after, prefix) == Prefix(before, after, 0)
    {
      prefix := prefix + 1;
    }
    var suffix: nat := 0;
    while suffix < |before| - prefix && suffix < |after| - prefix && before[|before| - 1 - suffix] == after[|after| - 1 - suffix]
      invariant prefix + suffix <= |before| && prefix + suffix <= |after|
      invariant Suffix(before, after, prefix, suffix) == Suffix(before, after, prefix, 0)
    {
      suffix := suffix + 1;
    }
    c := Change(before, after, prefix, suffix);
  }

  // ----- Where a word goes -----

  /** How often `w` stands among the first `n` words. */
  function Occurrences(ws: seq<string>, w: string, n: nat): nat
    requires n <= |ws|
  {
    if n == 0 then 0 else Occurrences(ws, w, n - 1) + if ws[n - 1] == w then 1 else 0
  }

  function FindNth(ws: seq<string>, w: string, ordinal: nat, k: nat, seen: nat): Option<nat>
    requires k <= |ws|
    decreases |ws| - k
  {
    if k == |ws| then None
    else if ws[k] != w then FindNth(ws, w, ordinal, k + 1, seen)
    else if seen == ordinal then Some(k)
    else FindNth(ws, w, ordinal, k + 1, seen + 1)
  }

  /** The same word at the same occurrence. */
  function ByOrdinal(before: seq<string>, after: seq<string>, i: nat): Option<nat> {
    if i >= |before| then None else FindNth(after, before[i], Occurrences(before, before[i], i), 0, 0)
  }

  method FindByOrdinal(before: seq<string>, after: seq<string>, i: nat) returns (r: Option<nat>)
    ensures r == ByOrdinal(before, after, i)
  {
    if i >= |before| { return None; }
    var w := before[i];
    var ordinal := Occurrences(before, w, i);
    var seen: nat := 0;
    for k := 0 to |after|
      invariant FindNth(after, w, ordinal, k, seen) == FindNth(after, w, ordinal, 0, 0)
    {
      if after[k] != w { continue; }
      if seen == ordinal { return Some(k); }
      seen := seen + 1;
    }
    r := None;
  }

  /** A word before the edit stays, one behind it moves along, one inside is looked for. */
  function Target(c: Change, i: nat): Option<nat>
    requires c.suffix <= |c.before| && c.suffix <= |c.after|
  {
    if i < c.prefix then Some(i)
    else if i >= |c.before| - c.suffix then Some(i - |c.before| + |c.after|)
    else ByOrdinal(c.before, c.after, i)
  }

  // ----- A sentence rewritten -----

  datatype Fate = Fate(focus: seq<FocusWord>, orphans: seq<FocusOrphan>)

  predicate TakenBy(focus: seq<FocusWord>, i: nat) { exists k | 0 <= k < |focus| :: focus[k].wordIndex == i }

  function OrphanOf(abc: Alphabet, seg: Segment, f: FocusWord): FocusOrphan {
    var words := WordList(abc, seg.text);
    FocusOrphan(f.id, seg.id, if f.wordIndex < |words| then words[f.wordIndex] else "", f.why)
  }

  /** What became of the first `n` focus words; `orphan` builds an orphan. */
  function FateOf(c: Change, orphan: FocusWord -> FocusOrphan, focus: seq<FocusWord>, n: nat): Fate
    requires c.suffix <= |c.before| && c.suffix <= |c.after| && n <= |focus|
  {
    if n == 0 then Fate([], [])
    else
      var st := FateOf(c, orphan, focus, n - 1);
      var f := focus[n - 1];
      var t := Target(c, f.wordIndex);
      if t.None? || TakenBy(st.focus, t.value) then st.(orphans := st.orphans + [orphan(f)])
      else st.(focus := st.focus + [f.(wordIndex := t.value)])
  }

  function ReanchorFocus(abc: Alphabet, seg: Segment, newText: string): Fate {
    var c := ChangeOf(Lower(abc, seg.text), Lower(abc, newText));
    var st := FateOf(c, (f: FocusWord) => OrphanOf(abc, seg, f), seg.focus, |seg.focus|);
    st.(focus := SortBy(st.focus, FocusKey))
  }

  method ReanchorSentence(abc: Alphabet, seg: Segment, newText: string) returns (out: Fate)
    ensures out == ReanchorFocus(abc, seg, newText)
  {
    var before, after := Lower(abc, seg.text), Lower(abc, newText);
    var c := FindChange(before, after);
    var st := PlaceAll(c, (f: FocusWord) => OrphanOf(abc, seg, f), seg.focus);
    out := Fate(SortBy(st.focus, FocusKey), st.orphans);
  }

  method PlaceAll(c: Change, orphan: FocusWord -> FocusOrphan, words: seq<FocusWord>) returns (st: Fate)
    requires c.prefix + c.suffix <= |c.before| && c.suffix <= |c.after|
    ensures st == FateOf(c, orphan, words, |words|)
  {
    var focus: seq<FocusWord>, orphans: seq<FocusOrphan> := [], [];
    var taken: set<nat> := {};
    for n := 0 to |words|
      invariant Fate(focus, orphans) == FateOf(c, orphan, words, n)
      invariant forall i: nat :: i in taken <==> TakenBy(focus, i)
    {
      var f := words[n];
      var t: Option<nat>;
      if f.wordIndex < c.prefix { t := Some(f.wordIndex); }
      else if f.wordIndex >= |c.before| - c.suffix { t := Some(f.wordIndex - |c.before| + |c.after|); }
      else { t := FindByOrdinal(c.before, c.after, f.wordIndex); }
      if t.None? || t.value in taken {
        orphans := orphans + [orphan(f)];
      } else {
        TakenSnoc(focus, f.(wordIndex := t.value));
        taken := taken + {t.value};
        focus := focus + [f.(wordIndex := t.value)];
      }
    }
    st := Fate(focus, orphans);
  }

  lemma TakenSnoc(focus: seq<FocusWord>, f: FocusWord)
    ensures forall i: nat :: TakenBy(focus + [f], i) <==> TakenBy(focus, i) || i == f.wordIndex
  {
    var all := focus + [f];
    forall i: nat ensures TakenBy(all, i) <==> TakenBy(focus, i) || i == f.wordIndex {
      if TakenBy(focus, i) {
        var k :| 0 <= k < |focus| && focus[k].wordIndex == i;
        assert all[k].wordIndex == i;
      }
      assert all[|focus|] == f;
    }
  }

  // ----- The document -----

  function MapSegment(segs: seq<Segment>, id: string, f: Segment -> Segment): (out: seq<Segment>)
    ensures |out| == |segs| && forall k | 0 <= k < |segs| :: out[k] == if segs[k].id == id then f(segs[k]) else segs[k]
  {
    seq(|segs|, k requires 0 <= k < |segs| => if segs[k].id == id then f(segs[k]) else segs[k])
  }

  function FindSegment(segs: seq<Segment>, id: string, k: nat): (r: Option<Segment>)
    requires k <= |segs|
    ensures r.Some? ==> r.value in segs && r.value.id == id
    decreases |segs| - k
  {
    if k == |segs| then None else if segs[k].id == id then Some(segs[k]) else FindSegment(segs, id, k + 1)
  }

  function FindOrphan(orphans: seq<FocusOrphan>, id: string, k: nat): (r: Option<FocusOrphan>)
    requires k <= |orphans|
    ensures r.Some? ==> r.value in orphans && r.value.id == id
    decreases |orphans| - k
  {
    if k == |orphans| then None else if orphans[k].id == id then Some(orphans[k]) else FindOrphan(orphans, id, k + 1)
  }

  function SetSegmentText(abc: Alphabet, doc: Doc, id: string, text: string): Doc {
    match FindSegment(doc.segments, id, 0)
    case None => doc
    case Some(seg) =>
      var fate := ReanchorFocus(abc, seg, text);
      doc.(segments := MapSegment(doc.segments, id, (s: Segment) => s.(text := text, focus := fate.focus)),
           orphans := doc.orphans + fate.orphans)
  }

  function ToggledFocus(focus: seq<FocusWord>, i: nat, newId: string): seq<FocusWord> {
    if TakenBy(focus, i) then WithoutIndex(focus, i) else SortBy(focus + [FocusWord(newId, i, "")], FocusKey)
  }

  function WithoutIndex(focus: seq<FocusWord>, i: nat): seq<FocusWord> {
    if focus == [] then []
    else
      var last := focus[|focus| - 1];
      WithoutIndex(focus[..|focus| - 1], i) + (if last.wordIndex != i then [last] else [])
  }

  function ToggleFocus(abc: Alphabet, doc: Doc, id: string, i: nat, newId: string): Doc {
    doc.(segments := MapSegment(doc.segments, id, (s: Segment) =>
      if i < |WordList(abc, s.text)| then s.(focus := ToggledFocus(s.focus, i, newId)) else s))
  }

  /** The first free place of `surface` among `words`, from `k` on. */
  function FreePlace(words: seq<string>, focus: seq<FocusWord>, surface: string, k: nat): (r: Option<nat>)
    requires k <= |words|
    ensures r.Some? ==> k <= r.value < |words| && words[r.value] == surface && !TakenBy(focus, r.value)
    ensures forall t | k <= t < (if r.Some? then r.value else |words|) :: words[t] != surface || TakenBy(focus, t)
    decreases |words| - k
  {
    if k == |words| then None
    else if words[k] == surface && !TakenBy(focus, k) then Some(k)
    else FreePlace(words, focus, surface, k + 1)
  }

  function PutBackIndex(abc: Alphabet, seg: Segment, o: FocusOrphan): Option<nat> {
    var surface := abc.lower(o.surface);
    if surface == "" then None else FreePlace(Lower(abc, seg.text), seg.focus, surface, 0)
  }

  function OrphanId(): FocusOrphan -> string { (o: FocusOrphan) => o.id }

  function PutBack(abc: Alphabet, doc: Doc, orphanId: string): Doc {
    match FindOrphan(doc.orphans, orphanId, 0)
    case None => doc
    case Some(o) =>
      match FindSegment(doc.segments, o.segmentId, 0)
      case None => doc
      case Some(seg) =>
        match PutBackIndex(abc, seg, o)
        case None => doc
        case Some(i) => Restored(doc, o, i)
  }

  function Restored(doc: Doc, o: FocusOrphan, i: nat): Doc {
    doc.(segments := MapSegment(doc.segments, o.segmentId, (s: Segment) =>
           s.(focus := SortBy(s.focus + [FocusWord(o.id, i, o.why)], FocusKey))),
         orphans := Others(doc.orphans, OrphanId(), o.id))
  }

  // ----- One continuous text -----

  predicate Blank(s: Segment) { Trim(s.text) == "" }

  /** The sentences that have a text, trimmed. */
  function Texts(segs: seq<Segment>, n: nat): seq<string>
    requires n <= |segs|
  {
    if n == 0 then [] else Texts(segs, n - 1) + (if Blank(segs[n - 1]) then [] else [Trim(segs[n - 1].text)])
  }

  function Reasons(segs: seq<Segment>, n: nat): seq<string>
    requires n <= |segs|
  {
    if n == 0 then []
    else Reasons(segs, n - 1) + (if Trim(segs[n - 1].why) == "" then [] else [Trim(segs[n - 1].why)])
  }

  /** What joining reads of a sentence: whether it has a text, how many words, its focus words. */
  datatype Part = Part(blank: bool, size: nat, focus: seq<FocusWord>)

  function PartOf(abc: Alphabet): Segment -> Part {
    (s: Segment) => Part(Blank(s), |WordList(abc, s.text)|, s.focus)
  }

  function Parts(abc: Alphabet, segs: seq<Segment>): (parts: seq<Part>)
    ensures |parts| == |segs|
  {
    Each(PartOf(abc), segs, |segs|)
  }

  lemma PartAt(abc: Alphabet, segs: seq<Segment>, k: nat)
    requires k < |segs|
    ensures Parts(abc, segs)[k] == Part(Blank(segs[k]), |WordList(abc, segs[k].text)|, segs[k].focus)
  {
    EachAt(PartOf(abc), segs, |segs|, k);
  }

  /** The words before the `n`-th sentence, in the joined text. */
  function Offset(parts: seq<Part>, n: nat): nat
    requires n <= |parts|
  {
    if n == 0 then 0 else Offset(parts, n - 1) + (if parts[n - 1].blank then 0 else parts[n - 1].size)
  }

  function MoveFocus(focus: seq<FocusWord>, shift: nat): (out: seq<FocusWord>)
    ensures |out| == |focus| && forall k | 0 <= k < |focus| :: out[k] == focus[k].(wordIndex := focus[k].wordIndex + shift)
  {
    seq(|focus|, k requires 0 <= k < |focus| => focus[k].(wordIndex := focus[k].wordIndex + shift))
  }

  function JoinedFocus(parts: seq<Part>, n: nat): seq<FocusWord>
    requires n <= |parts|
  {
    if n == 0 then []
    else
      JoinedFocus(parts, n - 1)
      + (if parts[n - 1].blank then [] else MoveFocus(parts[n - 1].focus, Offset(parts, n - 1)))
  }

  method JoinFocus(parts: seq<Part>) returns (focus: seq<FocusWord>)
    ensures focus == JoinedFocus(parts, |parts|)
  {
    focus := [];
    var offset: nat := 0;
    for n := 0 to |parts|
      invariant focus == JoinedFocus(parts, n) && offset == Offset(parts, n)
    {
      var s := parts[n];
      if s.blank { continue; }
      ghost var before, moved := focus, MoveFocus(s.focus, offset);
      for k := 0 to |s.focus|
        invariant focus == before + moved[..k]
      {
        PrefixNext(before, moved, k);
        focus := focus + [s.focus[k].(wordIndex := s.focus[k].wordIndex + offset)];
      }
      JoinStep(parts, n, before, moved, focus);
      offset := offset + s.size;
    }
  }

  lemma PrefixNext(a: seq<FocusWord>, b: seq<FocusWord>, k: nat)
    requires k < |b|
    ensures (a + b[..k]) + [b[k]] == a + b[..k + 1]
  {}

  lemma JoinStep(parts: seq<Part>, n: nat, before: seq<FocusWord>, moved: seq<FocusWord>, focus: seq<FocusWord>)
    requires n < |parts| && !parts[n].blank && before == JoinedFocus(parts, n)
    requires moved == MoveFocus(parts[n].focus, Offset(parts, n)) && focus == before + moved[..|parts[n].focus|]
    ensures focus == JoinedFocus(parts, n + 1)
  {
    assert moved[..|parts[n].focus|] == moved;
  }

  function Joined(abc: Alphabet, segs: seq<Segment>, newId: string): Segment {
    Segment(if segs != [] then segs[0].id else newId, Join(Texts(segs, |segs|)), Join(Reasons(segs, |segs|)),
            JoinedFocus(Parts(abc, segs), |segs|))
  }

  function Rehome(orphans: seq<FocusOrphan>, segmentId: string): (out: seq<FocusOrphan>)
    ensures |out| == |orphans| && forall k | 0 <= k < |orphans| :: out[k] == orphans[k].(segmentId := segmentId)
  {
    seq(|orphans|, k requires 0 <= k < |orphans| => orphans[k].(segmentId := segmentId))
  }

  function SetMode(abc: Alphabet, doc: Doc, whole: bool, newId: string): Doc {
    if whole == doc.whole then doc
    else if !whole then doc.(whole := false)
    else
      var segment := Joined(abc, doc.segments, newId);
      Doc(true, [segment], Rehome(doc.orphans, segment.id))
  }
}
