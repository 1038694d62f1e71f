/** The playback rules: a reducer over playback events that counts listens. */
module Allowance {
  import opened Options

  datatype Fragment = Fragment(start: real, end: real)

  datatype State = State(pos: real, playing: bool, plays: nat, completed: nat, range: Option<Fragment>)

  const Initial := State(0.0, false, 0, 0, None)

  datatype Transport = Start | Stop
  datatype Effect = Effect(seekTo: Option<real>, transport: Option<Transport>)

  const Nothing := Effect(None, None)

  datatype Event =
    | Play
    | Pause
    | Time(at: real)
    | Ended
    | Seek(to: real)
    | PlayRange(start: real, end: real)
    | Reset

  /** `limit` 0 is unlimited; `duration` 0 is unknown. */
  datatype Context = Context(limit: nat, seek: bool, duration: real)

  predicate IsExhausted(s: State, ctx: Context) { ctx.limit > 0 && s.plays >= ctx.limit }

  /** Pressing play here starts a new listen; the end counts, because playing there restarts. */
  predicate AtTop(s: State, ctx: Context) {
    s.pos <= 0.05 || (ctx.duration > 0.0 && s.pos >= ctx.duration - 0.05)
  }

  function Clamp(x: real, ctx: Context): real {
    var low := if x < 0.0 then 0.0 else x;
    if ctx.duration > 0.0 && low > ctx.duration then ctx.duration else low
  }

  function Step(s: State, event: Event, ctx: Context): (State, Effect) {
    match event
    case Play =>
      if AtTop(s, ctx) && IsExhausted(s, ctx) then (s, Nothing)
      else if AtTop(s, ctx) then
        (s.(pos := 0.0, playing := true, plays := s.plays + 1, range := None), Effect(Some(0.0), Some(Start)))
      else (s.(playing := true), Effect(None, Some(Start)))
    case Pause => if !s.playing then (s, Nothing) else (s.(playing := false), Effect(None, Some(Stop)))
    case Time(at) =>
      var pos := Clamp(at, ctx);
      if s.range.Some? && pos >= s.range.value.end then
        (s.(pos := s.range.value.end, playing := false, range := None), Effect(None, Some(Stop)))
      else (s.(pos := pos), Nothing)
    case Ended =>
      (State(ctx.duration, false, s.plays, if s.range.None? then s.completed + 1 else s.completed, None), Nothing)
    case Seek(to) =>
      if !ctx.seek then (s, Nothing)
      else (s.(pos := Clamp(to, ctx), range := None), Effect(Some(Clamp(to, ctx)), None))
    case PlayRange(start, end) =>
      var from, to := Clamp(start, ctx), Clamp(end, ctx);
      if to <= from then (s, Nothing)
      else (s.(pos := from, playing := true, range := Some(Fragment(from, to))), Effect(Some(from), Some(Start)))
    case Reset => (Initial, Effect(Some(0.0), Some(Stop)))
  }

  function After(events: seq<Event>, ctx: Context): State {
    if events == [] then Initial else Step(After(events[..|events| - 1], ctx), events[|events| - 1], ctx).0
  }

  function HasHeard(s: State): bool { s.completed > 0 }

  /** Whether the items are locked until the clip was heard once. */
  predicate IsGated(s: State, gateFirst: bool, playable: bool) { playable && gateFirst && !HasHeard(s) }

  predicate CanPlay(s: State, ctx: Context, interactive: bool) {
    interactive && (s.playing || !(AtTop(s, ctx) && IsExhausted(s, ctx)))
  }

  // ----- The limit -----

  /** Whatever happens, a positive limit bounds the listens. */
  lemma {:induction false} PlaysWithinLimit(events: seq<Event>, ctx: Context)
    requires ctx.limit > 0
    ensures After(events, ctx).plays <= ctx.limit
    decreases |events|
  {
    if events != [] { PlaysWithinLimit(events[..|events| - 1], ctx); }
  }

  /** An adapter that reports a position or the end only while it plays. */
  ghost predicate Honest(events: seq<Event>, ctx: Context) {
    forall k | 0 <= k < |events| && (events[k].Time? || events[k].Ended?) :: After(events[..k], ctx).playing
  }

  lemma HonestPrefix(events: seq<Event>, ctx: Context)
    requires Honest(events, ctx) && events != []
    ensures Honest(events[..|events| - 1], ctx)
  {
    var before := events[..|events| - 1];
    forall k | 0 <= k < |before| && (before[k].Time? || before[k].Ended?) ensures After(before[..k], ctx).playing {
      assert before[k] == events[k] && before[..k] == events[..k];
    }
  }

  /** Seeks the teacher allows and fragments played: they move the clip without spending a listen. */
  function FreeMoves(events: seq<Event>, ctx: Context): nat {
    if events == [] then 0
    else
      var last := events[|events| - 1];
      FreeMoves(events[..|events| - 1], ctx) + if last.PlayRange? || (last.Seek? && ctx.seek) then 1 else 0
  }

  /** A listen is under way: it is playing, or paused somewhere in the middle. */
  predicate UnderWay(s: State, ctx: Context) { s.playing || !AtTop(s, ctx) }

  lemma {:induction false} ListensAccounted(events: seq<Event>, ctx: Context)
    requires Honest(events, ctx)
    ensures var s := After(events, ctx);
            s.completed + (if UnderWay(s, ctx) then 1 else 0) <= s.plays + FreeMoves(events, ctx)
    decreases |events|
  {
    if events != [] {
      var before := events[..|events| - 1];
      HonestPrefix(events, ctx);
      ListensAccounted(before, ctx);
      assert events[..|events| - 1] == before;
    }
  }

  /** Completed listens never exceed the listens spent and the free moves made; where the clip can
      only be played from the top, they never exceed the limit. */
  lemma CompletedWithinPlays(events: seq<Event>, ctx: Context)
    requires Honest(events, ctx)
    ensures After(events, ctx).completed <= After(events, ctx).plays + FreeMoves(events, ctx)
    ensures FreeMoves(events, ctx) == 0 && ctx.limit > 0 ==> After(events, ctx).completed <= ctx.limit
  {
    ListensAccounted(events, ctx);
    if ctx.limit > 0 { PlaysWithinLimit(events, ctx); }
  }

  lemma {:induction false} NoFreeMoves(events: seq<Event>, ctx: Context)
    requires !ctx.seek && forall e | e in events :: !e.PlayRange?
    ensures FreeMoves(events, ctx) == 0
    decreases |events|
  {
    if events != [] {
      assert events[|events| - 1] in events;
      NoFreeMoves(events[..|events| - 1], ctx);
    }
  }

  // ----- When listens stay within the listens spent -----

  /** Some position of the clip is neither its start nor its end. */
  predicate HasMiddle(ctx: Context) { ctx.duration <= 0.0 || ctx.duration > 0.1 }

  function Middle(ctx: Context): (m: real)
    requires HasMiddle(ctx)
    ensures m > 0.05 && (ctx.duration > 0.0 ==> m < ctx.duration - 0.05)
  {
    if ctx.duration > 0.0 then ctx.duration / 2.0 else 1.0
  }

  /** What an adapter may report, in an exercise with or without fragments. */
  ghost predicate Played(events: seq<Event>, ctx: Context, fragments: bool) {
    Honest(events, ctx) && (fragments || forall e | e in events :: !e.PlayRange?)
  }

  ghost predicate ListensSpent(ctx: Context, fragments: bool) {
    forall events | Played(events, ctx, fragments) :: After(events, ctx).completed <= After(events, ctx).plays
  }

  lemma AfterNext(events: seq<Event>, e: Event, ctx: Context)
    ensures After(events + [e], ctx) == Step(After(events, ctx), e, ctx).0
    ensures Honest(events, ctx) && ((e.Time? || e.Ended?) ==> After(events, ctx).playing) ==> Honest(events + [e], ctx)
  {
    var all := events + [e];
    assert all[..|events|] == events;
    forall k | 0 <= k < |events| ensures all[..k] == events[..k] && all[k] == events[k] {}
  }

  /** No listen comes free: the clip has a middle and there is neither seeking nor a fragment, or it
      has none and there are not both. */
  predicate NothingFree(ctx: Context, fragments: bool) {
    if HasMiddle(ctx) then !ctx.seek && !fragments else !(ctx.seek && fragments)
  }

  /** `more` is heard out once more than `events`, and no listen was spent on it. */
  ghost predicate OneMore(events: seq<Event>, more: seq<Event>, ctx: Context, fragments: bool) {
    && Played(more, ctx, fragments) && !After(more, ctx).playing
    && After(more, ctx).completed == After(events, ctx).completed + 1
    && After(more, ctx).plays == After(events, ctx).plays
  }

  /** From the middle, reached by a seek, playing on is free. */
  lemma FreeBySeek(events: seq<Event>, ctx: Context, fragments: bool, m: real) returns (more: seq<Event>)
    requires Played(events, ctx, fragments) && !After(events, ctx).playing && ctx.seek
    requires m > 0.05 && (ctx.duration > 0.0 ==> m < ctx.duration - 0.05)
    ensures OneMore(events, more, ctx, fragments)
  {
    more := Continue(events, Seek(m), ctx);
    more := Continue(more, Play, ctx);
    more := Continue(more, Ended, ctx);
  }

  /** From the middle, where a fragment ended, too. */
  lemma FreeByFragment(events: seq<Event>, ctx: Context, m: real) returns (more: seq<Event>)
    requires Played(events, ctx, true) && !After(events, ctx).playing
    requires m > 0.05 && (ctx.duration > 0.0 ==> m < ctx.duration - 0.05)
    ensures OneMore(events, more, ctx, true)
  {
    more := Continue(events, PlayRange(0.0, m), ctx);
    more := Continue(more, Time(m), ctx);
    more := Continue(more, Play, ctx);
    more := Continue(more, Ended, ctx);
  }

  /** In a clip without a middle, a seek turns a fragment into a playthrough. */
  lemma FreeByBoth(events: seq<Event>, ctx: Context) returns (more: seq<Event>)
    requires Played(events, ctx, true) && !After(events, ctx).playing && !HasMiddle(ctx) && ctx.seek
    ensures OneMore(events, more, ctx, true)
  {
    more := Continue(events, PlayRange(0.0, ctx.duration), ctx);
    more := Continue(more, Seek(0.0), ctx);
    more := Continue(more, Ended, ctx);
  }

  lemma OneForFree(events: seq<Event>, ctx: Context, fragments: bool) returns (more: seq<Event>)
    requires Played(events, ctx, fragments) && !After(events, ctx).playing && !NothingFree(ctx, fragments)
    ensures OneMore(events, more, ctx, fragments)
  {
    if HasMiddle(ctx) && ctx.seek { more := FreeBySeek(events, ctx, fragments, Middle(ctx)); }
    else if HasMiddle(ctx) { more := FreeByFragment(events, ctx, Middle(ctx)); }
    else { more := FreeByBoth(events, ctx); }
  }

  lemma Continue(events: seq<Event>, e: Event, ctx: Context) returns (more: seq<Event>)
    requires Honest(events, ctx) && (e.Time? || e.Ended? ==> After(events, ctx).playing)
    ensures more == events + [e] && Honest(more, ctx) && After(more, ctx) == Step(After(events, ctx), e, ctx).0
  {
    more := events + [e];
    AfterNext(events, e, ctx);
  }

  lemma {:induction false} ManyForFree(n: nat, ctx: Context, fragments: bool) returns (events: seq<Event>)
    requires !NothingFree(ctx, fragments)
    ensures Played(events, ctx, fragments) && !After(events, ctx).playing
    ensures After(events, ctx).completed == n && After(events, ctx).plays == 0
  {
    events := [];
    if n > 0 {
      events := ManyForFree(n - 1, ctx, fragments);
      events := OneForFree(events, ctx, fragments);
    }
  }

  /** A clip without a middle is always at its top: only a playthrough under way is outstanding, and
      with seeking off or no fragments it was paid for. */
  lemma {:induction false} TinyClip(events: seq<Event>, ctx: Context, fragments: bool)
    requires Played(events, ctx, fragments) && !HasMiddle(ctx) && !(ctx.seek && fragments)
    ensures var s := After(events, ctx);
            && s.completed + (if s.playing && s.range.None? then 1 else 0) <= s.plays
            && (!fragments ==> s.range.None?)
    decreases |events|
  {
    if events != [] {
      var before := events[..|events| - 1];
      HonestPrefix(events, ctx);
      assert events[|events| - 1] in events;
      TinyClip(before, ctx, fragments);
    }
  }

  lemma NothingFreeHolds(events: seq<Event>, ctx: Context, fragments: bool)
    requires NothingFree(ctx, fragments) && Played(events, ctx, fragments)
    ensures After(events, ctx).completed <= After(events, ctx).plays
  {
    if HasMiddle(ctx) {
      NoFreeMoves(events, ctx);
      CompletedWithinPlays(events, ctx);
    } else {
      TinyClip(events, ctx, fragments);
    }
  }

  ghost predicate LimitHeld(ctx: Context, fragments: bool) {
    forall events | Played(events, ctx, fragments) :: After(events, ctx).completed <= ctx.limit
  }

  /** Completed listens stay within the listens spent, and within a positive limit, whatever an
      honest adapter reports, exactly when no listen comes free. */
  lemma ListensSpentIff(ctx: Context, fragments: bool)
    ensures ListensSpent(ctx, fragments) <==> NothingFree(ctx, fragments)
    ensures ctx.limit > 0 ==> (LimitHeld(ctx, fragments) <==> NothingFree(ctx, fragments))
  {
    if NothingFree(ctx, fragments) {
      forall events | Played(events, ctx, fragments)
        ensures After(events, ctx).completed <= After(events, ctx).plays
        ensures ctx.limit > 0 ==> After(events, ctx).completed <= ctx.limit
      {
        NothingFreeHolds(events, ctx, fragments);
        if ctx.limit > 0 { PlaysWithinLimit(events, ctx); }
      }
    } else {
      var events := ManyForFree(ctx.limit + 1, ctx, fragments);
    }
  }

  // ----- The button -----

  /** A press of the button pauses a clip that plays and plays one that does not. */
  function Press(s: State): Event { if s.playing then Pause else Play }

  /** The button is lit exactly when a press does something to the clip. */
  lemma ButtonIsHonest(s: State, ctx: Context)
    ensures CanPlay(s, ctx, true) <==> Step(s, Press(s), ctx).1.transport.Some?
  {}

  /** A play event sent to a clip that plays at its top with no listen left is refused, although
      the button is lit — for pausing.  One play at a limit of one is there already. */
  lemma PlayWhilePlaying(s: State, ctx: Context)
    ensures (CanPlay(s, ctx, true) <==> Step(s, Play, ctx).1.transport == Some(Start))
            <==> !(s.playing && AtTop(s, ctx) && IsExhausted(s, ctx))
    ensures ctx.limit == 1 ==>
              var t := After([Play], ctx); t.playing && AtTop(t, ctx) && IsExhausted(t, ctx)
  {
    AfterNext([], Play, ctx);
    assert [] + [Play] == [Play];
  }

  /** Finishing a paused listen is free, even with no listen left. */
  lemma ResumeIsFree(events: seq<Event>, ctx: Context)
    requires After(events, ctx).playing && !AtTop(After(events, ctx), ctx)
    ensures After(events + [Pause, Play], ctx) == After(events, ctx)
  {
    var paused := events + [Pause];
    assert paused[..|paused| - 1] == events;
    assert (events + [Pause, Play])[..|events| + 1] == paused;
  }

  // ----- The position -----

  /** The reported position stays inside the clip, and so does the fragment being played. */
  ghost predicate InClip(s: State, ctx: Context) {
    && 0.0 <= s.pos && (ctx.duration > 0.0 ==> s.pos <= ctx.duration)
    && (s.range.Some? ==>
          0.0 <= s.range.value.start < s.range.value.end
          && (ctx.duration > 0.0 ==> s.range.value.end <= ctx.duration))
  }

  lemma {:induction false} PositionInClip(events: seq<Event>, ctx: Context)
    requires ctx.duration >= 0.0
    ensures InClip(After(events, ctx), ctx)
    decreases |events|
  {
    if events != [] { PositionInClip(events[..|events| - 1], ctx); }
  }

  // ----- The element that plays the clip -----

  /** The player behind the rules: where it stands and whether it runs. */
  datatype Element = Element(at: real, running: bool)

  /** What an event and the effect it had leave of the element: it reports where it is itself, stops by
      itself at the end, and otherwise does what the effect asks. */
  function Obeys(el: Element, event: Event, effect: Effect, ctx: Context): Element {
    var own := match event
      case Time(at) => el.(at := at)
      case Ended => Element(ctx.duration, false)
      case _ => el;
    Element(if effect.seekTo.Some? then effect.seekTo.value else own.at,
            if effect.transport.Some? then effect.transport == Some(Start) else own.running)
  }

  function ElementAfter(events: seq<Event>, ctx: Context): Element {
    if events == [] then Element(0.0, false)
    else
      var before, last := events[..|events| - 1], events[|events| - 1];
      Obeys(ElementAfter(before, ctx), last, Step(After(before, ctx), last, ctx).1, ctx)
  }

  predicate OnClip(x: real, ctx: Context) { 0.0 <= x && (ctx.duration > 0.0 ==> x <= ctx.duration) }

  /** The element reports positions of the clip. */
  ghost predicate ReportsOnClip(events: seq<Event>, ctx: Context) {
    forall e | e in events && e.Time? :: OnClip(e.at, ctx)
  }

  /** The element runs as the state says and stands there, or behind a fragment that was stopped. */
  predicate Follows(s: State, el: Element, whole: bool) {
    el.running == s.playing && s.pos <= el.at && (whole ==> s.pos == el.at && s.range.None?)
  }

  lemma FollowsOn(s: State, el: Element, event: Event, ctx: Context, whole: bool)
    requires Follows(s, el, whole) && (event.Time? ==> OnClip(event.at, ctx)) && (whole ==> !event.PlayRange?)
    ensures var (next, effect) := Step(s, event, ctx); Follows(next, Obeys(el, event, effect, ctx), whole)
  {}

  /** In every run the element runs exactly when the state says so, and stands where the state says,
      except that a fragment is stopped by the first report behind its end. */
  lemma {:induction false} ElementFollows(events: seq<Event>, ctx: Context)
    requires ctx.duration >= 0.0 && ReportsOnClip(events, ctx)
    ensures Follows(After(events, ctx), ElementAfter(events, ctx), forall e | e in events :: !e.PlayRange?)
    decreases |events|
  {
    if events != [] {
      var before, last := events[..|events| - 1], events[|events| - 1];
      assert events == before + [last];
      ElementFollows(before, ctx);
      var whole := forall e | e in events :: !e.PlayRange?;
      FollowsOn(After(before, ctx), ElementAfter(before, ctx), last, ctx, whole);
    }
  }

  /** Nearest point of the clip. */
  predicate Nearest(x: real, p: real, ctx: Context) {
    OnClip(p, ctx) && (OnClip(x, ctx) ==> p == x) && (x < 0.0 ==> p == 0.0) && (ctx.duration > 0.0 && x > ctx.duration ==> p == ctx.duration)
  }

  /** Where the element is moved: to the top by a press that starts a listen and by a reset; to the
      nearest point of the clip by a seek that is allowed; to the start of a fragment that is played.
      Nothing else moves it. */
  lemma SeekIs(s: State, event: Event, ctx: Context)
    requires ctx.duration >= 0.0
    ensures var (next, effect) := Step(s, event, ctx);
            match event
            case Play =>
              && (effect.seekTo.Some? <==> next.plays == s.plays + 1) && (effect.seekTo.Some? ==> effect.seekTo == Some(0.0))
              && (next.plays == s.plays + 1 <==>
                    (s.pos <= 0.05 || (ctx.duration > 0.0 && s.pos >= ctx.duration - 0.05)) && (ctx.limit == 0 || s.plays < ctx.limit))
              && next.plays <= s.plays + 1
            case Seek(to) => if ctx.seek then effect.seekTo.Some? && Nearest(to, effect.seekTo.value, ctx) else effect == Nothing && next == s
            case PlayRange(start, end) =>
              if next.range.Some? && effect.seekTo.Some? then
                Nearest(start, next.range.value.start, ctx) && Nearest(end, next.range.value.end, ctx)
                && effect == Effect(Some(next.range.value.start), Some(Start)) && next.range.value.start < next.range.value.end
              else effect == Nothing && next == s && forall a, b | Nearest(start, a, ctx) && Nearest(end, b, ctx) :: b <= a
            case Reset => effect.seekTo == Some(0.0) && next == Initial
            case _ => effect.seekTo.None?
  {}

  // ----- The gate -----

  /** How many playthroughs reached the end since the last reset. */
  function Playthroughs(events: seq<Event>, ctx: Context): nat {
    if events == [] then 0
    else
      var before, last := events[..|events| - 1], events[|events| - 1];
      if last.Reset? then 0
      else Playthroughs(before, ctx) + if last.Ended? && After(before, ctx).range.None? then 1 else 0
  }

  /** The items open exactly when one playthrough — not a fragment — reached the end. */
  lemma {:induction false} GateOpens(events: seq<Event>, ctx: Context, playable: bool)
    ensures After(events, ctx).completed == Playthroughs(events, ctx)
    ensures IsGated(After(events, ctx), true, playable) <==> playable && Playthroughs(events, ctx) == 0
    decreases |events|
  {
    if events != [] { GateOpens(events[..|events| - 1], ctx, playable); }
  }
}
