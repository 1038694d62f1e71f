/** The outbox relay when timer flushes overlap: each works through the rows it fetched, which may
    be stale by then, and any call to the store or the broker may fail — with or without effect. */
module OutboxProtocol {

  datatype Row = Row(id: string, eventId: string, attempts: nat)

  /** Where a flush stands with its first row. */
  datatype Phase = Ready | Marking | Failing

  datatype Flush = Flush(todo: seq<Row>, phase: Phase)

  /** `rows` are all rows ever written, with their attempts so far; `published` those that left the
      pending set; `sent` what reached the broker, `confirmed` what it confirmed to the relay. */
  datatype State = State(
    rows: map<string, Row>,
    published: set<string>,
    sent: seq<string>,
    confirmed: set<string>,
    flushes: seq<Flush>)

  const Empty := State(map[], {}, [], {}, [])

  /** A call: did it take effect, did it return. */
  datatype Call = Call(effect: bool, returned: bool)

  datatype Action =
    | Insert(row: Row)
    | Fetch(fetched: seq<Row>)
    | Publish(f: nat, call: Call)
    | Mark(f: nat, call: Call)
    | Count(f: nat, call: Call)
    | Abandon(f: nat, call: Call)

  predicate Pending(s: State, id: string) { id in s.rows && id !in s.published }

  predicate Working(s: State, f: nat, phase: Phase) {
    f < |s.flushes| && s.flushes[f].todo != [] && s.flushes[f].phase == phase
  }

  function First(s: State, f: nat): Row
    requires f < |s.flushes| && s.flushes[f].todo != []
  {
    s.flushes[f].todo[0]
  }

  /** What may happen next.  A call that returned took effect; a fetch returns rows as they are
      pending at that moment. */
  ghost predicate Enabled(s: State, a: Action, max: nat) {
    match a
    case Insert(row) => row.id !in s.rows && row.attempts == 0
    case Fetch(fetched) => forall k | 0 <= k < |fetched| :: Pending(s, fetched[k].id) && s.rows[fetched[k].id] == fetched[k]
    case Publish(f, call) => Working(s, f, Ready) && First(s, f).attempts < max && (call.returned ==> call.effect)
    case Mark(f, call) => Working(s, f, Marking) && (call.returned ==> call.effect)
    case Count(f, call) => Working(s, f, Failing) && (call.returned ==> call.effect)
    case Abandon(f, call) => Working(s, f, Ready) && First(s, f).attempts >= max && (call.returned ==> call.effect)
  }

  function At(s: State, f: nat, phase: Phase): seq<Flush>
    requires f < |s.flushes|
  {
    s.flushes[f := s.flushes[f].(phase := phase)]
  }

  function NextRow(s: State, f: nat): seq<Flush>
    requires f < |s.flushes| && s.flushes[f].todo != []
  {
    s.flushes[f := Flush(s.flushes[f].todo[1..], Ready)]
  }

  function Bumped(s: State, id: string): map<string, Row> {
    if id in s.rows then s.rows[id := s.rows[id].(attempts := s.rows[id].attempts + 1)] else s.rows
  }

  ghost function Next(s: State, a: Action, max: nat): State
    requires Enabled(s, a, max)
  {
    match a
    case Insert(row) => s.(rows := s.rows[row.id := row])
    case Fetch(fetched) => s.(flushes := s.flushes + [Flush(fetched, Ready)])
    case Publish(f, call) =>
      var event := First(s, f).eventId;
      s.(sent := if call.effect then s.sent + [event] else s.sent,
         confirmed := if call.returned then s.confirmed + {event} else s.confirmed,
         flushes := At(s, f, if call.returned then Marking else Failing))
    case Mark(f, call) =>
      s.(published := if call.effect then s.published + {First(s, f).id} else s.published,
         flushes := if call.returned then NextRow(s, f) else At(s, f, Failing))
    case Count(f, call) =>
      s.(rows := if call.effect then Bumped(s, First(s, f).id) else s.rows, flushes := NextRow(s, f))
    case Abandon(f, call) =>
      s.(published := if call.effect then s.published + {First(s, f).id} else s.published, flushes := NextRow(s, f))
  }

  /** The states a run of actions goes through. */
  ghost predicate IsRun(states: seq<State>, actions: seq<Action>, max: nat) {
    && |states| == |actions| + 1 && states[0] == Empty
    && forall k | 0 <= k < |actions| :: Enabled(states[k], actions[k], max) && states[k + 1] == Next(states[k], actions[k], max)
  }

  // ----- What every step keeps -----

  /** A row as some flush saw it: the row is still the same, with at least as many attempts. */
  ghost predicate Stale(s: State, r: Row) {
    r.id in s.rows && s.rows[r.id].eventId == r.eventId && s.rows[r.id].attempts >= r.attempts && s.rows[r.id].id == r.id
  }

  ghost predicate GoodFlush(s: State, f: Flush) {
    && (forall k | 0 <= k < |f.todo| :: Stale(s, f.todo[k]))
    && (f.phase == Marking ==> f.todo != [] && f.todo[0].eventId in s.confirmed)
  }

  /** A row that left was confirmed or given up after enough attempts. */
  ghost predicate Excused(s: State, id: string, max: nat) {
    id in s.rows && (s.rows[id].eventId in s.confirmed || s.rows[id].attempts >= max)
  }

  ghost predicate Safe(s: State, max: nat) {
    && (forall id | id in s.published :: Excused(s, id, max))
    && (forall k | 0 <= k < |s.flushes| :: GoodFlush(s, s.flushes[k]))
    && (forall e | e in s.confirmed :: e in s.sent)
    && (forall id | id in s.rows :: s.rows[id].id == id)
  }

  /** Rows keep their event and only gain attempts; nothing confirmed is forgotten. */
  ghost predicate Grows(s: State, t: State) {
    && (forall id | id in s.rows :: id in t.rows && t.rows[id].id == s.rows[id].id
          && t.rows[id].eventId == s.rows[id].eventId && t.rows[id].attempts >= s.rows[id].attempts)
    && s.confirmed <= t.confirmed && s.published <= t.published
  }

  lemma NextGrows(s: State, a: Action, max: nat)
    requires Enabled(s, a, max)
    ensures Grows(s, Next(s, a, max))
  {}

  lemma GrowthKeeps(s: State, t: State, max: nat)
    requires Safe(s, max) && Grows(s, t)
    ensures forall id | id in s.published :: Excused(t, id, max)
    ensures forall k | 0 <= k < |s.flushes| :: GoodFlush(t, s.flushes[k])
  {
    forall k | 0 <= k < |s.flushes| ensures GoodFlush(t, s.flushes[k]) {
      forall i | 0 <= i < |s.flushes[k].todo| ensures Stale(t, s.flushes[k].todo[i]) {
        assert Stale(s, s.flushes[k].todo[i]);
      }
    }
  }

  lemma NextFlushes(s: State, a: Action, max: nat)
    requires Safe(s, max) && Enabled(s, a, max)
    ensures var t := Next(s, a, max); forall k | 0 <= k < |t.flushes| :: GoodFlush(t, t.flushes[k])
  {
    var t := Next(s, a, max);
    NextGrows(s, a, max);
    GrowthKeeps(s, t, max);
    forall k | 0 <= k < |t.flushes| ensures GoodFlush(t, t.flushes[k]) {
      if k < |s.flushes| {
        var f := s.flushes[k];
        assert GoodFlush(t, f);
        if t.flushes[k] != f && |t.flushes[k].todo| < |f.todo| {
          assert forall i | 0 <= i < |t.flushes[k].todo| :: t.flushes[k].todo[i] == f.todo[i + 1];
        }
      }
    }
  }

  lemma NextExcuses(s: State, a: Action, max: nat)
    requires Safe(s, max) && Enabled(s, a, max)
    ensures var t := Next(s, a, max); forall id | id in t.published :: Excused(t, id, max)
  {
    var t := Next(s, a, max);
    NextGrows(s, a, max);
    GrowthKeeps(s, t, max);
    forall id | id in t.published ensures Excused(t, id, max) {
      if id !in s.published {
        var f := a.f;
        assert GoodFlush(s, s.flushes[f]);
        assert Stale(s, First(s, f));
      }
    }
  }

  lemma NextSafe(s: State, a: Action, max: nat)
    requires Safe(s, max) && Enabled(s, a, max)
    ensures Safe(Next(s, a, max), max)
  {
    NextFlushes(s, a, max);
    NextExcuses(s, a, max);
  }

  lemma {:induction false} RunSafe(states: seq<State>, actions: seq<Action>, max: nat, n: nat)
    requires IsRun(states, actions, max) && n <= |actions|
    ensures Safe(states[n], max)
  {
    if n > 0 {
      RunSafe(states, actions, max, n - 1);
      NextSafe(states[n - 1], actions[n - 1], max);
    }
  }

  /** However flushes overlap and whichever calls fail, a row is pending, or its event was confirmed
      by the broker, or its attempts reached the maximum. */
  lemma NoRowIsLost(states: seq<State>, actions: seq<Action>, max: nat, n: nat, id: string)
    requires IsRun(states, actions, max) && n <= |actions| && id in states[n].rows
    ensures Pending(states[n], id) || states[n].rows[id].eventId in states[n].confirmed || states[n].rows[id].attempts >= max
    ensures states[n].rows[id].eventId in states[n].confirmed ==> states[n].rows[id].eventId in states[n].sent
  {
    RunSafe(states, actions, max, n);
    if id in states[n].published { assert Excused(states[n], id, max); }
  }

  lemma {:induction false} RunGrows(states: seq<State>, actions: seq<Action>, max: nat, n: nat, m: nat)
    requires IsRun(states, actions, max) && n <= m <= |actions|
    ensures Grows(states[n], states[m])
  {
    if n < m {
      RunGrows(states, actions, max, n, m - 1);
      NextGrows(states[m - 1], actions[m - 1], max);
    }
  }

  /** How often a failure of this row was counted among the first `n` actions. */
  function Failures(states: seq<State>, actions: seq<Action>, n: nat, id: string): nat
    requires n <= |actions| && n <= |states|
  {
    if n == 0 then 0
    else
      var s, a := states[n - 1], actions[n - 1];
      Failures(states, actions, n - 1, id)
      + if a.Count? && a.call.effect && Working(s, a.f, Failing) && First(s, a.f).id == id then 1 else 0
  }

  /** The attempts of a row are the failures counted for it; it may be given up only after `max`. */
  lemma {:induction false} AttemptsAreFailures(states: seq<State>, actions: seq<Action>, max: nat, n: nat, id: string)
    requires IsRun(states, actions, max) && n <= |actions|
    ensures id in states[n].rows ==> states[n].rows[id].attempts == Failures(states, actions, n, id)
    ensures id !in states[n].rows ==> Failures(states, actions, n, id) == 0
  {
    if n > 0 {
      AttemptsAreFailures(states, actions, max, n - 1, id);
      RunSafe(states, actions, max, n - 1);
      OneAttempt(states[n - 1], actions[n - 1], max, id);
    }
  }

  lemma OneAttempt(s: State, a: Action, max: nat, id: string)
    requires Safe(s, max) && Enabled(s, a, max)
    ensures var t := Next(s, a, max);
            var counted := a.Count? && a.call.effect && First(s, a.f).id == id;
            && (id in s.rows ==> id in t.rows && t.rows[id].attempts == s.rows[id].attempts + (if counted then 1 else 0))
            && (id !in s.rows ==> !counted && (id in t.rows ==> t.rows[id].attempts == 0))
  {
    if a.Count? {
      assert GoodFlush(s, s.flushes[a.f]);
      assert Stale(s, First(s, a.f));
    }
  }

  /** A row leaves the pending set only at a step of a flush that had its event confirmed, or that
      gives the row up — and it never comes back. */
  lemma RowLeavesOnce(states: seq<State>, actions: seq<Action>, max: nat, n: nat, id: string)
    requires IsRun(states, actions, max) && n < |actions|
    requires Pending(states[n], id) && !Pending(states[n + 1], id)
    ensures actions[n].Mark? || actions[n].Abandon?
    ensures actions[n].Mark? ==> states[n].rows[id].eventId in states[n].confirmed
    ensures actions[n].Abandon? ==> states[n].rows[id].attempts >= max
    ensures forall m | n < m <= |actions| :: !Pending(states[m], id)
  {
    var s, a := states[n], actions[n];
    RunSafe(states, actions, max, n);
    assert GoodFlush(s, s.flushes[a.f]);
    assert Stale(s, First(s, a.f));
    forall m | n < m <= |actions| ensures !Pending(states[m], id) { RunGrows(states, actions, max, n + 1, m); }
  }

  // ----- When an event is sent at most once -----

  /** What a deployment may do: flushes that overlap, a publish that reaches the broker without
      returning, a mark that takes no effect, two rows with one event, a fetch that lists a row
      twice. */
  datatype Policy = Policy(overlap: bool, ghostPublish: bool, lostMark: bool, sharedEvent: bool, doubleFetch: bool)

  predicate Busy(s: State) { exists k | 0 <= k < |s.flushes| :: s.flushes[k].todo != [] }

  predicate DistinctRows(rows: seq<Row>) { forall i, j | 0 <= i < j < |rows| :: rows[i].id != rows[j].id }

  ghost predicate Permits(policy: Policy, s: State, a: Action) {
    match a
    case Insert(row) => policy.sharedEvent || forall id | id in s.rows :: s.rows[id].eventId != row.eventId
    case Fetch(fetched) => (policy.overlap || !Busy(s)) && (policy.doubleFetch || DistinctRows(fetched))
    case Publish(_, call) => policy.ghostPublish || call.effect == call.returned
    case Mark(_, call) => policy.lostMark || call.effect
    case Count(_, _) => true
    case Abandon(_, _) => true
  }

  ghost predicate PermittedRun(policy: Policy, states: seq<State>, actions: seq<Action>, max: nat) {
    IsRun(states, actions, max) && forall k | 0 <= k < |actions| :: Permits(policy, states[k], actions[k])
  }

  predicate AtMostOnce(sent: seq<string>) { forall i, j | 0 <= i < j < |sent| :: sent[i] != sent[j] }

  /** The first row of the one flush at work. */
  ghost predicate Heads(s: State, f: nat, id: string, phase: Phase) { Working(s, f, phase) && First(s, f).id == id }

  /** An event that was sent belongs to a row that left, or that is being marked. */
  ghost predicate Settled(s: State, event: string) {
    exists id | id in s.rows && s.rows[id].eventId == event :: id in s.published || exists f: nat :: Heads(s, f, id, Marking)
  }

  /** The rows a flush has not come to are pending; the one it is at, too, unless its mark failed to
      return. */
  ghost predicate Untouched(s: State, f: Flush) {
    && DistinctRows(f.todo)
    && (forall k | 0 <= k < |f.todo| && (k > 0 || f.phase != Failing) :: f.todo[k].id !in s.published)
  }

  ghost predicate Careful(s: State) {
    && AtMostOnce(s.sent)
    && (forall k | 0 <= k < |s.sent| :: Settled(s, s.sent[k]))
    && (forall i, j | 0 <= i < j < |s.flushes| :: s.flushes[i].todo == [] || s.flushes[j].todo == [])
    && (forall k | 0 <= k < |s.flushes| :: Untouched(s, s.flushes[k]))
    && (forall x, y | x in s.rows && y in s.rows && s.rows[x].eventId == s.rows[y].eventId :: x == y)
  }

  const Strictest := Policy(false, false, false, false, false)

  /** A row that is about to be published was not sent before. */
  lemma NotYetSent(s: State, f: nat, max: nat)
    requires Safe(s, max) && Careful(s) && Working(s, f, Ready)
    ensures First(s, f).eventId !in s.sent
  {
    var r := First(s, f);
    assert GoodFlush(s, s.flushes[f]) && Stale(s, r) && Untouched(s, s.flushes[f]);
    forall id | id in s.rows && s.rows[id].eventId == r.eventId
      ensures id !in s.published && forall g: nat :: !Heads(s, g, id, Marking)
    {
      assert id == r.id;
      forall g: nat ensures !Heads(s, g, id, Marking) { OneAtWork(s, f, g); }
    }
    assert !Settled(s, r.eventId);
  }

  lemma OneAtWork(s: State, f: nat, g: nat)
    requires Careful(s) && f < |s.flushes|
    ensures g < |s.flushes| && s.flushes[f].todo != [] && s.flushes[g].todo != [] ==> f == g
  {
    if g < |s.flushes| && f != g { assert f < g || g < f; }
  }

  lemma PublishCareful(s: State, f: nat, call: Call, max: nat)
    requires Safe(s, max) && Careful(s)
    requires Enabled(s, Publish(f, call), max) && Permits(Strictest, s, Publish(f, call))
    ensures Careful(Next(s, Publish(f, call), max))
  {
    var t := Next(s, Publish(f, call), max);
    NotYetSent(s, f, max);
    assert GoodFlush(s, s.flushes[f]) && Stale(s, First(s, f));
    forall k | 0 <= k < |t.sent| ensures Settled(t, t.sent[k]) {
      if k < |s.sent| { KeepSettled(s, t, s.sent[k], f); } else { assert Heads(t, f, First(s, f).id, Marking); }
    }
    forall k | 0 <= k < |t.flushes| ensures Untouched(t, t.flushes[k]) { assert Untouched(s, s.flushes[k]); }
  }

  /** An event stays settled when its flush moves on: the row being marked leaves. */
  lemma KeepSettled(s: State, t: State, event: string, f: nat)
    requires Settled(s, event) && Grows(s, t) && f < |s.flushes| == |t.flushes|
    requires forall g | 0 <= g < |s.flushes| && g != f :: t.flushes[g] == s.flushes[g]
    requires s.flushes[f].phase == Marking && s.flushes[f].todo != [] ==> First(s, f).id in t.published
    ensures Settled(t, event)
  {
    var id :| id in s.rows && s.rows[id].eventId == event && (id in s.published || exists g: nat :: Heads(s, g, id, Marking));
    if id !in s.published {
      var g: nat :| Heads(s, g, id, Marking);
      if g != f { assert Heads(t, g, id, Marking); }
    }
  }

  /** A step of a flush that sends nothing. */
  lemma FlushCareful(s: State, a: Action, max: nat)
    requires Safe(s, max) && Careful(s) && (a.Mark? || a.Count? || a.Abandon?)
    requires Enabled(s, a, max) && Permits(Strictest, s, a)
    ensures Careful(Next(s, a, max))
  {
    var t, f := Next(s, a, max), a.f;
    NextGrows(s, a, max);
    assert Untouched(s, s.flushes[f]);
    forall k | 0 <= k < |t.sent| ensures Settled(t, t.sent[k]) { KeepSettled(s, t, s.sent[k], f); }
    forall k | 0 <= k < |t.flushes| ensures Untouched(t, t.flushes[k]) {
      assert Untouched(s, s.flushes[k]);
      if k == f { StepUntouched(s, a, max); } else { OtherIdle(s, a, max, k); }
    }
    RowsKeepEvents(s, a, max);
  }

  lemma RowsKeepEvents(s: State, a: Action, max: nat)
    requires Safe(s, max) && Careful(s) && !a.Insert? && Enabled(s, a, max)
    ensures var t := Next(s, a, max);
            forall x, y | x in t.rows && y in t.rows && t.rows[x].eventId == t.rows[y].eventId :: x == y
  {
    var t := Next(s, a, max);
    assert forall x | x in t.rows :: x in s.rows && t.rows[x].eventId == s.rows[x].eventId;
  }

  lemma StepUntouched(s: State, a: Action, max: nat)
    requires Careful(s) && (a.Mark? || a.Count? || a.Abandon?) && Enabled(s, a, max) && Permits(Strictest, s, a)
    ensures var t := Next(s, a, max); Untouched(t, t.flushes[a.f])
  {
    var t, f := Next(s, a, max), s.flushes[a.f];
    assert Untouched(s, f);
    var todo := t.flushes[a.f].todo;
    if |todo| < |f.todo| { assert forall k | 0 <= k < |todo| :: todo[k] == f.todo[k + 1]; }
  }

  lemma OtherIdle(s: State, a: Action, max: nat, k: nat)
    requires Careful(s) && (a.Mark? || a.Count? || a.Abandon?) && Enabled(s, a, max) && k < |s.flushes| && k != a.f
    ensures Untouched(Next(s, a, max), s.flushes[k])
  {
    assert s.flushes[k].todo == [] by { assert k < a.f || a.f < k; }
  }

  lemma FetchCareful(s: State, fetched: seq<Row>, max: nat)
    requires Safe(s, max) && Careful(s)
    requires Enabled(s, Fetch(fetched), max) && Permits(Strictest, s, Fetch(fetched))
    ensures Careful(Next(s, Fetch(fetched), max))
  {
    var t := Next(s, Fetch(fetched), max);
    assert forall k | 0 <= k < |s.flushes| :: t.flushes[k] == s.flushes[k];
    forall k | 0 <= k < |t.sent| ensures Settled(t, t.sent[k]) {
      assert Settled(s, s.sent[k]);
      forall id, g: nat ensures !Heads(s, g, id, Marking) { IdleHasNoHead(s, g, id); }
    }
    forall i, j | 0 <= i < j < |t.flushes| ensures t.flushes[i].todo == [] || t.flushes[j].todo == [] {
      assert i < |s.flushes| && !Busy(s);
    }
    forall k | 0 <= k < |t.flushes| ensures Untouched(t, t.flushes[k]) {
      if k < |s.flushes| { assert Untouched(s, s.flushes[k]); }
      else { assert forall i | 0 <= i < |fetched| :: Pending(s, fetched[i].id); }
    }
  }

  lemma IdleHasNoHead(s: State, g: nat, id: string)
    requires !Busy(s)
    ensures !Heads(s, g, id, Marking)
  {}

  lemma InsertCareful(s: State, row: Row, max: nat)
    requires Safe(s, max) && Careful(s)
    requires Enabled(s, Insert(row), max) && Permits(Strictest, s, Insert(row))
    ensures Careful(Next(s, Insert(row), max))
  {
    var t := Next(s, Insert(row), max);
    forall k | 0 <= k < |t.sent| ensures Settled(t, t.sent[k]) {
      assert Settled(s, s.sent[k]);
      var id :| id in s.rows && s.rows[id].eventId == s.sent[k] && (id in s.published || exists g: nat :: Heads(s, g, id, Marking));
      assert id in t.rows && t.rows[id].eventId == s.sent[k];
      if id !in s.published {
        var g: nat :| Heads(s, g, id, Marking);
        assert Heads(t, g, id, Marking);
      }
    }
    forall k | 0 <= k < |t.flushes| ensures Untouched(t, t.flushes[k]) { assert Untouched(s, s.flushes[k]); }
  }

  lemma NextCareful(s: State, a: Action, max: nat)
    requires Safe(s, max) && Careful(s) && Enabled(s, a, max) && Permits(Strictest, s, a)
    ensures Careful(Next(s, a, max))
  {
    match a
    case Insert(row) => InsertCareful(s, row, max);
    case Fetch(fetched) => FetchCareful(s, fetched, max);
    case Publish(f, call) => PublishCareful(s, f, call, max);
    case Mark(_, _) => FlushCareful(s, a, max);
    case Count(_, _) => FlushCareful(s, a, max);
    case Abandon(_, _) => FlushCareful(s, a, max);
  }

  lemma {:induction false} CarefulRun(states: seq<State>, actions: seq<Action>, max: nat, n: nat)
    requires PermittedRun(Strictest, states, actions, max) && n <= |actions|
    ensures Careful(states[n])
  {
    if n > 0 {
      CarefulRun(states, actions, max, n - 1);
      RunSafe(states, actions, max, n - 1);
      NextCareful(states[n - 1], actions[n - 1], max);
    }
  }

  /** In every permitted run every event is sent at most once. */
  ghost predicate SendsOnce(policy: Policy, max: nat) {
    forall states: seq<State>, actions: seq<Action> | PermittedRun(policy, states, actions, max) ::
      AtMostOnce(states[|actions|].sent)
  }

  // ----- Five ways to send an event twice -----

  lemma SentTwice(policy: Policy, states: seq<State>, actions: seq<Action>, max: nat)
    requires PermittedRun(policy, states, actions, max) && states[|actions|].sent == ["e", "e"]
    ensures !SendsOnce(policy, max)
  {
    assert states[|actions|].sent[0] == states[|actions|].sent[1];
  }

  const Ok := Call(true, true)
  const NoEffect := Call(false, false)
  const Silent := Call(true, false)

  const R1 := Row("r", "e", 0)
  const R2 := Row("q", "e", 0)

  /** Two flushes fetch the row before either marks it. */
  lemma OverlapTwice(policy: Policy, max: nat)
    requires policy.overlap && max > 0
    ensures !SendsOnce(policy, max)
  {
    var actions := [Insert(R1), Fetch([R1]), Fetch([R1]), Publish(0, Ok), Publish(1, Ok)];
    var s0 := Empty;
    var s1 := Next(s0, actions[0], max);
    var s2 := Next(s1, actions[1], max);
    var s3 := Next(s2, actions[2], max);
    var s4 := Next(s3, actions[3], max);
    var s5 := Next(s4, actions[4], max);
    SentTwice(policy, [s0, s1, s2, s3, s4, s5], actions, max);
  }

  /** The broker took the event, the relay did not hear of it and tries again. */
  lemma GhostPublishTwice(policy: Policy, max: nat)
    requires policy.ghostPublish && max > 0
    ensures !SendsOnce(policy, max)
  {
    var actions := [Insert(R1), Fetch([R1]), Publish(0, Silent), Count(0, NoEffect), Fetch([R1]), Publish(1, Ok)];
    var s0 := Empty;
    var s1 := Next(s0, actions[0], max);
    var s2 := Next(s1, actions[1], max);
    var s3 := Next(s2, actions[2], max);
    var s4 := Next(s3, actions[3], max);
    var s5 := Next(s4, actions[4], max);
    var s6 := Next(s5, actions[5], max);
    SentTwice(policy, [s0, s1, s2, s3, s4, s5, s6], actions, max);
  }

  /** The event was confirmed, but the mark was lost and the row is fetched again. */
  lemma LostMarkTwice(policy: Policy, max: nat)
    requires policy.lostMark && max > 0
    ensures !SendsOnce(policy, max)
  {
    var actions := [Insert(R1), Fetch([R1]), Publish(0, Ok), Mark(0, NoEffect), Count(0, NoEffect), Fetch([R1]), Publish(1, Ok)];
    var s0 := Empty;
    var s1 := Next(s0, actions[0], max);
    var s2 := Next(s1, actions[1], max);
    var s3 := Next(s2, actions[2], max);
    var s4 := Next(s3, actions[3], max);
    var s5 := Next(s4, actions[4], max);
    var s6 := Next(s5, actions[5], max);
    var s7 := Next(s6, actions[6], max);
    SentTwice(policy, [s0, s1, s2, s3, s4, s5, s6, s7], actions, max);
  }

  lemma SharedEventTwice(policy: Policy, max: nat)
    requires policy.sharedEvent && max > 0
    ensures !SendsOnce(policy, max)
  {
    var actions := [Insert(R1), Insert(R2), Fetch([R1, R2]), Publish(0, Ok), Mark(0, Ok), Publish(0, Ok)];
    var s0 := Empty;
    var s1 := Next(s0, actions[0], max);
    var s2 := Next(s1, actions[1], max);
    var s3 := Next(s2, actions[2], max);
    var s4 := Next(s3, actions[3], max);
    var s5 := Next(s4, actions[4], max);
    var s6 := Next(s5, actions[5], max);
    SentTwice(policy, [s0, s1, s2, s3, s4, s5, s6], actions, max);
  }

  lemma DoubleFetchTwice(policy: Policy, max: nat)
    requires policy.doubleFetch && max > 0
    ensures !SendsOnce(policy, max)
  {
    var actions := [Insert(R1), Fetch([R1, R1]), Publish(0, Ok), Mark(0, Ok), Publish(0, Ok)];
    var s0 := Empty;
    var s1 := Next(s0, actions[0], max);
    var s2 := Next(s1, actions[1], max);
    var s3 := Next(s2, actions[2], max);
    var s4 := Next(s3, actions[3], max);
    var s5 := Next(s4, actions[4], max);
    SentTwice(policy, [s0, s1, s2, s3, s4, s5], actions, max);
  }

  lemma {:induction false} NothingSent(states: seq<State>, actions: seq<Action>, n: nat)
    requires IsRun(states, actions, 0) && n <= |actions|
    ensures states[n].sent == []
  {
    if n > 0 { NothingSent(states, actions, n - 1); }
  }

  /** Every event is sent at most once, in every run, exactly when flushes do not overlap, a publish
      reaches the broker only if it returns, every mark takes effect, no two rows share an event and
      no fetch lists a row twice — or when nothing may be tried at all. */
  lemma SendsOnceIff(policy: Policy, max: nat)
    ensures SendsOnce(policy, max) <==> policy == Strictest || max == 0
  {
    if policy == Strictest || max == 0 {
      forall states: seq<State>, actions: seq<Action> | PermittedRun(policy, states, actions, max)
        ensures AtMostOnce(states[|actions|].sent)
      {
        if max == 0 { NothingSent(states, actions, |actions|); } else { CarefulRun(states, actions, max, |actions|); }
      }
      return;
    }
    if policy.overlap { OverlapTwice(policy, max); }
    if policy.ghostPublish { GhostPublishTwice(policy, max); }
    if policy.lostMark { LostMarkTwice(policy, max); }
    if policy.sharedEvent { SharedEventTwice(policy, max); }
    if policy.doubleFetch { DoubleFetchTwice(policy, max); }
  }
}
