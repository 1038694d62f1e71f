/** One flush of the outbox relay, from fetch to last row, over a store and a broker that may fail. */
module OutboxRelay {
  import opened Sequences
  import opened OutboxProtocol

  function Without(rows: seq<Row>, id: string): seq<Row> {
    if rows == [] then [] else (if rows[0].id == id then [] else [rows[0]]) + Without(rows[1..], id)
  }

  function Bump(rows: seq<Row>, id: string): seq<Row> {
    if rows == [] then []
    else [if rows[0].id == id then rows[0].(attempts := rows[0].attempts + 1) else rows[0]] + Bump(rows[1..], id)
  }

  ghost predicate DistinctIds(rows: seq<Row>) { forall i, j | 0 <= i < j < |rows| :: rows[i].id != rows[j].id }

  /** The unpublished rows, oldest first.  A reliable store answers every call; another may fail, and
      a failed write may have taken effect. */
  class Store {
    var pending: seq<Row>
    const reliable: bool

    /** A new row goes behind the ones already waiting, with no attempt counted. */
    method InsertPending(id: string, eventId: string)
      modifies this
      ensures pending == old(pending) + [Row(id, eventId, 0)]
    {
      pending := pending + [Row(id, eventId, 0)];
    }

    method FetchPending(limit: nat) returns (ok: bool, rows: seq<Row>)
      ensures reliable ==> ok
      ensures ok ==> rows == Take(pending, limit)
    {
      ok := *;
      ok := ok || reliable;
      rows := Take(pending, limit);
    }

    method MarkPublished(id: string) returns (ok: bool)
      modifies this
      ensures reliable ==> ok
      ensures pending == Without(old(pending), id) || (!ok && pending == old(pending))
    {
      var effect: bool := *;
      ok := *;
      ok := reliable || (ok && effect);
      if effect || ok { pending := Without(pending, id); }
    }

    method IncrementAttempts(id: string) returns (ok: bool)
      modifies this
      ensures reliable ==> ok
      ensures pending == Bump(old(pending), id) || (!ok && pending == old(pending))
    {
      var effect: bool := *;
      ok := *;
      ok := reliable || (ok && effect);
      if effect || ok { pending := Bump(pending, id); }
    }
  }

  class Broker {
    /** The events whose publication was confirmed, and every attempt with what came of it. */
    var confirmed: set<string>
    var log: seq<(string, bool)>
    const reliable: bool

    method Publish(eventId: string) returns (ok: bool)
      modifies this
      ensures reliable ==> ok
      ensures log == old(log) + [(eventId, ok)]
      ensures confirmed == if ok then old(confirmed) + {eventId} else old(confirmed)
    {
      ok := *;
      ok := ok || reliable;
      log := log + [(eventId, ok)];
      if ok { confirmed := confirmed + {eventId}; }
    }
  }

  /** The row is still pending, with its event and at least its attempts. */
  ghost predicate Kept(r: Row, pending: seq<Row>) {
    exists k | 0 <= k < |pending| :: pending[k].id == r.id && pending[k].eventId == r.eventId && pending[k].attempts >= r.attempts
  }

  ghost predicate Accounted(r: Row, pending: seq<Row>, confirmed: set<string>, max: nat) {
    Kept(r, pending) || r.eventId in confirmed || r.attempts >= max
  }

  ghost predicate AllAccounted(before: seq<Row>, pending: seq<Row>, confirmed: set<string>, max: nat) {
    forall r | r in before :: Accounted(r, pending, confirmed, max)
  }

  /** The events of the rows among the first `n` that are tried rather than given up. */
  ghost function Tried(rows: seq<Row>, n: nat, max: nat): set<string>
    requires n <= |rows|
  {
    set k | 0 <= k < n && rows[k].attempts < max :: rows[k].eventId
  }

  /** The events sent to the broker, in order, with what came of each: those of the rows not given up. */
  predicate Sends(rows: seq<Row>, results: seq<bool>, max: nat, log: seq<(string, bool)>) {
    if rows == [] then results == [] && log == []
    else
      var init, last := rows[..|rows| - 1], rows[|rows| - 1];
      if last.attempts >= max then Sends(init, results, max, log)
      else
        && results != [] && log != [] && log[|log| - 1] == (last.eventId, results[|results| - 1])
        && Sends(init, results[..|results| - 1], max, log[..|log| - 1])
  }

  /** What stays of these rows: each that was sent in vain, with one attempt more. */
  function Left(rows: seq<Row>, results: seq<bool>, max: nat): seq<Row> {
    if rows == [] then []
    else
      var init, last := rows[..|rows| - 1], rows[|rows| - 1];
      if last.attempts >= max then Left(init, results, max)
      else if results == [] then []
      else
        Left(init, results[..|results| - 1], max)
        + (if results[|results| - 1] then [] else [last.(attempts := last.attempts + 1)])
  }

  function More<T>(xs: seq<T>, row: Row, max: nat, x: T): seq<T> { if row.attempts < max then xs + [x] else xs }

  /** What is pending once the first `k` rows were taken up. */
  ghost predicate Stays(rows: seq<Row>, k: nat, results: seq<bool>, max: nat, pending: seq<Row>)
    requires k <= |rows|
  {
    pending == Left(rows[..k], results, max) + rows[k..]
  }

  /** None of the first `k` rows was sent in vain. */
  ghost predicate AllSent(rows: seq<Row>, k: nat, results: seq<bool>, max: nat, known: set<string>, confirmed: set<string>)
    requires k <= |rows|
  {
    Left(rows[..k], results, max) == [] && confirmed == known + Tried(rows, k, max)
  }

  class Relay {
    const store: Store
    const broker: Broker
    const batchSize: nat
    const maxAttempts: nat

    constructor (store: Store, broker: Broker, batchSize: nat, maxAttempts: nat)
      ensures this.store == store && this.broker == broker
      ensures this.batchSize == batchSize && this.maxAttempts == maxAttempts
    {
      this.store, this.broker, this.batchSize, this.maxAttempts := store, broker, batchSize, maxAttempts;
    }

    /** One row of a batch: given up, or sent and then marked or counted. */
    method Deliver(row: Row, ghost before: seq<Row>) returns (sent: bool)
      requires DistinctIds(before) && row in before && AllAccounted(before, store.pending, broker.confirmed, maxAttempts)
      modifies store, broker
      ensures AllAccounted(before, store.pending, broker.confirmed, maxAttempts)
      ensures row.attempts >= maxAttempts ==> broker.log == old(broker.log) && broker.confirmed == old(broker.confirmed)
      ensures row.attempts < maxAttempts ==>
                && broker.log == old(broker.log) + [(row.eventId, sent)] && (broker.reliable ==> sent)
                && broker.confirmed == if sent then old(broker.confirmed) + {row.eventId} else old(broker.confirmed)
      ensures store.reliable ==>
                store.pending == if row.attempts >= maxAttempts || sent then Without(old(store.pending), row.id)
                                 else Bump(old(store.pending), row.id)
    {
      ghost var pending := store.pending;
      sent := false;
      if row.attempts >= maxAttempts {
        var _ := store.MarkPublished(row.id);
        WithoutAccounted(before, pending, broker.confirmed, row, maxAttempts);
        return;
      }
      sent := broker.Publish(row.eventId);
      assert AllAccounted(before, pending, broker.confirmed, maxAttempts);
      if sent {
        var marked := store.MarkPublished(row.id);
        WithoutAccounted(before, pending, broker.confirmed, row, maxAttempts);
        if marked { return; }
      }
      pending := store.pending;
      var _ := store.IncrementAttempts(row.id);
      BumpAccounted(before, pending, broker.confirmed, row.id, maxAttempts);
    }

    /** Whatever fails, every row stays pending, was confirmed, or had used up its attempts.  Unless
        the fetch fails, every row of the batch that is not given up is sent once, in order, whatever
        becomes of the others.  When the store answers, those sent in vain stay, with one attempt more,
        and the rest of the batch leaves; when the broker does too, exactly their events are confirmed. */
    method Flush() returns (ghost results: seq<bool>)
      requires DistinctIds(store.pending)
      modifies store, broker
      ensures AllAccounted(old(store.pending), store.pending, broker.confirmed, maxAttempts)
      ensures old(broker.confirmed) <= broker.confirmed
      ensures old(broker.log) <= broker.log
      ensures broker.log == old(broker.log)
              || Sends(Take(old(store.pending), batchSize), results, maxAttempts, broker.log[|old(broker.log)|..])
      ensures store.reliable ==>
                var batch := Take(old(store.pending), batchSize);
                && Sends(batch, results, maxAttempts, broker.log[|old(broker.log)|..])
                && store.pending == Left(batch, results, maxAttempts) + old(store.pending)[|batch|..]
      ensures store.reliable && broker.reliable ==>
                var n := |Take(old(store.pending), batchSize)|;
                && store.pending == old(store.pending)[n..]
                && broker.confirmed == old(broker.confirmed) + Tried(old(store.pending), n, maxAttempts)
    {
      ghost var before, known, past := store.pending, broker.confirmed, broker.log;
      AllKept(before, known, maxAttempts);
      results := [];
      ghost var log: seq<(string, bool)> := [];
      var ok, rows := store.FetchPending(batchSize);
      if !ok { return; }
      for k := 0 to |rows|
        invariant AllAccounted(before, store.pending, broker.confirmed, maxAttempts)
        invariant known <= broker.confirmed && broker.log == past + log
        invariant Sends(before[..k], results, maxAttempts, log)
        invariant store.reliable ==> Stays(before, k, results, maxAttempts, store.pending)
        invariant broker.reliable ==> AllSent(before, k, results, maxAttempts, known, broker.confirmed)
      {
        var row := rows[k];
        ghost var pending, confirmed := store.pending, broker.confirmed;
        var sent := Deliver(row, before);
        SendsNext(before, k, results, maxAttempts, log, sent);
        if store.reliable { StaysNext(before, k, results, maxAttempts, pending, sent, store.pending); }
        if broker.reliable { AllSentNext(before, k, results, maxAttempts, known, confirmed, sent, broker.confirmed); }
        results, log := More(results, row, maxAttempts, sent), More(log, row, maxAttempts, (row.eventId, sent));
      }
      assert before[..|rows|] == rows && broker.log[|past|..] == log;
    }
  }

  lemma SendsNext(rows: seq<Row>, k: nat, results: seq<bool>, max: nat, log: seq<(string, bool)>, sent: bool)
    requires k < |rows| && Sends(rows[..k], results, max, log)
    ensures Sends(rows[..k + 1], More(results, rows[k], max, sent), max, More(log, rows[k], max, (rows[k].eventId, sent)))
  {
    assert rows[..k + 1][..k] == rows[..k];
    assert (results + [sent])[..|results|] == results && (log + [(rows[k].eventId, sent)])[..|log|] == log;
  }

  lemma LeftNext(rows: seq<Row>, k: nat, results: seq<bool>, max: nat, sent: bool)
    requires k < |rows|
    ensures Left(rows[..k + 1], More(results, rows[k], max, sent), max)
            == Left(rows[..k], results, max)
               + (if rows[k].attempts >= max || sent then [] else [rows[k].(attempts := rows[k].attempts + 1)])
  {
    assert rows[..k + 1][..k] == rows[..k] && (results + [sent])[..|results|] == results;
  }

  lemma StaysNext(rows: seq<Row>, k: nat, results: seq<bool>, max: nat, was: seq<Row>, sent: bool, now: seq<Row>)
    requires DistinctIds(rows) && k < |rows| && Stays(rows, k, results, max, was)
    requires now == if rows[k].attempts >= max || sent then Without(was, rows[k].id) else Bump(was, rows[k].id)
    ensures Stays(rows, k + 1, More(results, rows[k], max, sent), max, now)
  {
    LeftMiddle(rows, k, results, max);
    LeftNext(rows, k, results, max, sent);
  }

  lemma AllSentNext(rows: seq<Row>, k: nat, results: seq<bool>, max: nat, known: set<string>, was: set<string>, sent: bool, now: set<string>)
    requires k < |rows| && AllSent(rows, k, results, max, known, was) && (rows[k].attempts < max ==> sent)
    requires now == if rows[k].attempts < max then was + {rows[k].eventId} else was
    ensures AllSent(rows, k + 1, More(results, rows[k], max, sent), max, known, now)
  {
    LeftNext(rows, k, results, max, sent);
  }

  lemma {:induction false} LeftIds(rows: seq<Row>, results: seq<bool>, max: nat, q: Row)
    requires q in Left(rows, results, max)
    ensures exists i | 0 <= i < |rows| :: rows[i].id == q.id
    decreases |rows|
  {
    var init, last := rows[..|rows| - 1], rows[|rows| - 1];
    if last.attempts >= max {
      LeftIds(init, results, max, q);
    } else if q in Left(init, results[..|results| - 1], max) {
      LeftIds(init, results[..|results| - 1], max, q);
    } else {
      assert rows[|rows| - 1].id == q.id;
    }
  }

  /** Taking out or counting the next row leaves what is left of the rows before it and those behind. */
  lemma LeftMiddle(rows: seq<Row>, k: nat, results: seq<bool>, max: nat)
    requires DistinctIds(rows) && k < |rows|
    ensures var left, row := Left(rows[..k], results, max), rows[k];
            && Without(left + rows[k..], row.id) == left + rows[k + 1..]
            && Bump(left + rows[k..], row.id) == left + [row.(attempts := row.attempts + 1)] + rows[k + 1..]
  {
    var left, row := Left(rows[..k], results, max), rows[k];
    forall q | q in left ensures q.id != row.id {
      LeftIds(rows[..k], results, max, q);
      var i :| 0 <= i < k && rows[..k][i].id == q.id;
      assert rows[i].id == q.id;
    }
    forall q | q in rows[k + 1..] ensures q.id != row.id { var i :| k + 1 <= i < |rows| && rows[i] == q; }
    assert rows[k..] == [row] + rows[k + 1..];
    Middle(left, row, rows[k + 1..]);
  }

  lemma {:induction false} Middle(a: seq<Row>, row: Row, b: seq<Row>)
    requires (forall q | q in a :: q.id != row.id) && forall q | q in b :: q.id != row.id
    ensures Without(a + ([row] + b), row.id) == a + b
    ensures Bump(a + ([row] + b), row.id) == a + [row.(attempts := row.attempts + 1)] + b
  {
    var all := a + ([row] + b);
    if a == [] {
      assert all == [row] + b && all[1..] == b;
      WithoutNone(b, row.id);
      BumpNone(b, row.id);
    } else {
      assert all[0] == a[0] && all[1..] == a[1..] + ([row] + b) && a[0] in a;
      Middle(a[1..], row, b);
    }
  }

  lemma {:induction false} BumpNone(rows: seq<Row>, id: string)
    requires forall q | q in rows :: q.id != id
    ensures Bump(rows, id) == rows
  {
    if rows != [] {
      assert rows[0] in rows;
      BumpNone(rows[1..], id);
    }
  }

  lemma AllKept(rows: seq<Row>, confirmed: set<string>, max: nat)
    ensures AllAccounted(rows, rows, confirmed, max)
  {
    forall r | r in rows ensures Kept(r, rows) {
      var k :| 0 <= k < |rows| && rows[k] == r;
    }
  }

  lemma {:induction false} WithoutIs(rows: seq<Row>, id: string, q: Row)
    ensures q in Without(rows, id) <==> q in rows && q.id != id
  {
    if rows != [] {
      WithoutIs(rows[1..], id, q);
      assert rows == [rows[0]] + rows[1..];
    }
  }

  lemma {:induction false} WithoutNone(rows: seq<Row>, id: string)
    requires forall q | q in rows :: q.id != id
    ensures Without(rows, id) == rows
  {
    if rows != [] {
      assert rows[0] in rows;
      WithoutNone(rows[1..], id);
    }
  }

  lemma {:induction false} BumpKeeps(rows: seq<Row>, id: string, r: Row)
    requires Kept(r, rows)
    ensures Kept(r, Bump(rows, id))
    decreases |rows|
  {
    var k :| 0 <= k < |rows| && rows[k].id == r.id && rows[k].eventId == r.eventId && rows[k].attempts >= r.attempts;
    var bumped, rest := Bump(rows, id), rows[1..];
    if k == 0 {
      assert bumped[0].id == r.id;
    } else {
      assert rest[k - 1] == rows[k];
      BumpKeeps(rest, id, r);
      var j :| 0 <= j < |Bump(rest, id)| && Bump(rest, id)[j].id == r.id && Bump(rest, id)[j].eventId == r.eventId && Bump(rest, id)[j].attempts >= r.attempts;
      assert bumped[j + 1] == Bump(rest, id)[j];
    }
  }

  lemma BumpAccounted(before: seq<Row>, pending: seq<Row>, confirmed: set<string>, id: string, max: nat)
    requires AllAccounted(before, pending, confirmed, max)
    ensures AllAccounted(before, Bump(pending, id), confirmed, max)
  {
    forall r | r in before ensures Accounted(r, Bump(pending, id), confirmed, max) {
      assert Accounted(r, pending, confirmed, max);
      if Kept(r, pending) { BumpKeeps(pending, id, r); }
    }
  }

  /** Removing a confirmed or exhausted row leaves every row accounted for. */
  lemma WithoutAccounted(before: seq<Row>, pending: seq<Row>, confirmed: set<string>, row: Row, max: nat)
    requires AllAccounted(before, pending, confirmed, max) && DistinctIds(before) && row in before
    requires row.eventId in confirmed || row.attempts >= max
    ensures AllAccounted(before, Without(pending, row.id), confirmed, max)
  {
    forall r | r in before ensures Accounted(r, Without(pending, row.id), confirmed, max) {
      assert Accounted(r, pending, confirmed, max);
      if r.id == row.id {
        var i :| 0 <= i < |before| && before[i] == r;
        var j :| 0 <= j < |before| && before[j] == row;
        assert i == j;
      } else if Kept(r, pending) {
        var k :| 0 <= k < |pending| && pending[k].id == r.id && pending[k].eventId == r.eventId && pending[k].attempts >= r.attempts;
        WithoutIs(pending, row.id, pending[k]);
        var rest := Without(pending, row.id);
        var j :| 0 <= j < |rest| && rest[j] == pending[k];
        assert rest[j].id == r.id;
      }
    }
  }
}
