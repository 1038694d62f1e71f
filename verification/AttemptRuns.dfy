/** What every run of checks and reveals keeps. */
module AttemptRuns {
  import opened Ratios
  import opened Options
  import opened Attempts

  // ----- The history of one element -----

  /** An accepted check. */
  datatype Entry = Entry(now: Option<int>, score: real, pass: bool)

  predicate Accepts(exam: Exam, carried: map<string, State>, event: Event) { Step(exam, carried, event).Accepted? }

  function EntryOf(exam: Exam, carried: map<string, State>, event: Event, id: string): seq<Entry> {
    if event.Check? && event.id == id && event.verdict.Graded? && Accepts(exam, carried, event)
    then [Entry(event.now, event.verdict.score, event.verdict.pass)]
    else []
  }

  /** The accepted checks of an element, oldest first. */
  function Log(exam: Exam, events: seq<Event>, id: string): seq<Entry> {
    if events == [] then []
    else
      var before := events[..|events| - 1];
      Log(exam, before, id) + EntryOf(exam, After(exam, before), events[|events| - 1], id)
  }

  predicate RevealedIn(exam: Exam, events: seq<Event>, id: string) {
    events != [] &&
    var before, event := events[..|events| - 1], events[|events| - 1];
    RevealedIn(exam, before, id) || (event == Reveal(id) && Accepts(exam, After(exam, before), event))
  }

  // ----- The state is the history -----

  predicate OutOfChecks(exam: Exam, checks: nat) { ChecksLeft(exam, checks) == Some(0) }

  ghost predicate Spaced(exam: Exam, log: seq<Entry>) {
    forall k | 0 < k < |log| && log[k].now.Some? && log[k - 1].now.Some? ::
      log[k].now.value - log[k - 1].now.value >= exam.interval
  }

  /** What the carried state of an element says about its history. */
  ghost predicate Records(exam: Exam, s: State, log: seq<Entry>, revealed: bool) {
    && s.checks == |log|
    && s.firstScore == (if log == [] then None else Some(log[0].score))
    && s.firstPassed == (if log == [] then None else Some(log[0].pass))
    && s.lastCheckAt == (if log == [] then None else log[|log| - 1].now)
    && (s.passed <==> log != [] && log[|log| - 1].pass)
    && (forall k | 0 <= k < |log| - 1 :: !log[k].pass)
    && s.revealed == revealed
    && (revealed ==> log != [] && MayReveal(exam) && !s.passed)
    && (s.closed <==> s.passed || s.revealed || OutOfChecks(exam, |log|))
    && (MaxChecks(exam).Some? ==> |log| <= MaxChecks(exam).value)
    && Spaced(exam, log)
  }

  lemma CheckRecords(exam: Exam, s: State, log: seq<Entry>, now: Option<int>, score: real, pass: bool)
    requires Records(exam, s, log, false) && !s.closed && InTime(exam, s, now)
    ensures Records(exam, AfterCheck(exam, s, now, score, pass), log + [Entry(now, score, pass)], false)
  {
    var next := log + [Entry(now, score, pass)];
    forall k | 0 < k < |next| && next[k].now.Some? && next[k - 1].now.Some?
      ensures next[k].now.value - next[k - 1].now.value >= exam.interval
    {
      assert next[k - 1] == log[k - 1];
      if k < |log| { assert next[k] == log[k]; }
    }
  }

  lemma NextState(exam: Exam, carried: map<string, State>, event: Event, id: string)
    requires id in exam.ready
    ensures var s, next := StateOf(carried, id), StateOf(Next(exam, carried, event), id);
            && (event.id != id || !Accepts(exam, carried, event) ==> next == s)
            && (event == Reveal(id) && Accepts(exam, carried, event) ==>
                  next == s.(revealed := true, closed := true)
                  && !s.passed && !s.revealed && MayReveal(exam) && s.checks > 0)
            && (event.Check? && event.id == id && Accepts(exam, carried, event) ==>
                  event.verdict.Graded? && !s.closed && InTime(exam, s, event.now)
                  && next == AfterCheck(exam, s, event.now, event.verdict.score, event.verdict.pass))
  {}

  /** The carried state of every ready element says exactly what happened to it: how many checks
      were accepted, the first one's score and verdict, whether the last one passed or the key was
      shown — and it is closed exactly when it passed, was revealed or ran out of checks. */
  lemma {:induction false} StateIsHistory(exam: Exam, events: seq<Event>, id: string)
    requires id in exam.ready
    ensures Records(exam, StateOf(After(exam, events), id), Log(exam, events, id), RevealedIn(exam, events, id))
    decreases |events|
  {
    if events != [] {
      var before, event := events[..|events| - 1], events[|events| - 1];
      var carried, log := After(exam, before), Log(exam, before, id);
      StateIsHistory(exam, before, id);
      NextState(exam, carried, event, id);
      if event.id == id && Accepts(exam, carried, event) && event.Check? {
        CheckRecords(exam, StateOf(carried, id), log, event.now, event.verdict.score, event.verdict.pass);
      } else {
        assert log + [] == log;
      }
    }
  }

  /** What a submit is answered with depends on the history alone.  A check of a ready element is
      accepted exactly when no check of it has passed, its key was not shown, the budget is not
      spent, the last check lies far enough back and the answer can be graded; a reveal exactly
      when the key may be shown, some check was made, none has passed and it was not shown yet. */
  lemma AcceptedIff(exam: Exam, events: seq<Event>, id: string, now: Option<int>, verdict: Verdict)
    ensures var carried, log := After(exam, events), Log(exam, events, id);
            var open := !RevealedIn(exam, events, id) && forall e | e in log :: !e.pass;
            && (Accepts(exam, carried, Check(id, now, verdict)) <==>
                  id in exam.ready && open
                  && (MaxChecks(exam).Some? ==> |log| < MaxChecks(exam).value)
                  && !TooSoon(exam, log, now)
                  && verdict.Graded?)
            && (Accepts(exam, carried, Reveal(id)) <==> id in exam.ready && open && log != [] && exam.revealKey && !exam.graded)
  {
    if id in exam.ready {
      StateIsHistory(exam, events, id);
      NoneHasPassed(StateOf(After(exam, events), id), Log(exam, events, id));
      CheckAccepted(exam, After(exam, events), id, now, verdict, Log(exam, events, id), RevealedIn(exam, events, id));
      RevealAccepted(exam, After(exam, events), id);
    }
  }

  lemma CheckAccepted(exam: Exam, carried: map<string, State>, id: string, now: Option<int>, verdict: Verdict, log: seq<Entry>, revealed: bool)
    requires id in exam.ready && Records(exam, StateOf(carried, id), log, revealed)
    ensures Accepts(exam, carried, Check(id, now, verdict)) <==>
              && !revealed && !StateOf(carried, id).passed
              && (MaxChecks(exam).Some? ==> |log| < MaxChecks(exam).value)
              && !TooSoon(exam, log, now) && verdict.Graded?
  {}

  lemma RevealAccepted(exam: Exam, carried: map<string, State>, id: string)
    requires id in exam.ready
    ensures var s := StateOf(carried, id);
            Accepts(exam, carried, Reveal(id)) <==> !s.passed && !s.revealed && s.checks > 0 && exam.revealKey && !exam.graded
  {}

  /** The last accepted check lies less than the interval back. */
  predicate TooSoon(exam: Exam, log: seq<Entry>, now: Option<int>) {
    log != [] && log[|log| - 1].now.Some? && now.Some? && now.value - log[|log| - 1].now.value < exam.interval
  }

  /** Why a submit is refused: an unknown element before anything else; then a closed one; then a
      check too soon, and last an answer that cannot be graded. */
  lemma RefusedBecause(exam: Exam, events: seq<Event>, event: Event)
    requires !Accepts(exam, After(exam, events), event)
    ensures var carried, log := After(exam, events), Log(exam, events, event.id);
            var over := RevealedIn(exam, events, event.id) || exists e | e in log :: e.pass;
            var code := Step(exam, carried, event).code;
            && (code == Unknown <==> event.id !in exam.ready)
            && (code == AlreadyClosed <==> event.id in exam.ready && (over || (event.Check? && OutOfChecks(exam, |log|))))
            && (code == RevealNotAllowed <==> event.id in exam.ready && event.Reveal? && !over)
            && var asked := event.id in exam.ready && event.Check? && !over && !OutOfChecks(exam, |log|);
            && (code == TooFast <==> asked && TooSoon(exam, log, event.now))
            && (code == CannotGrade <==> asked && !TooSoon(exam, log, event.now) && event.verdict.Unreadable?)
  {
    if event.id in exam.ready {
      StateIsHistory(exam, events, event.id);
      NoneHasPassed(StateOf(After(exam, events), event.id), Log(exam, events, event.id));
    }
  }

  /** The element is done with: some check passed, the key was shown, or the checks are used up. */
  predicate Finished(exam: Exam, events: seq<Event>, id: string) {
    var log := Log(exam, events, id);
    || (exists k | 0 <= k < |log| :: log[k].pass)
    || RevealedIn(exam, events, id)
    || (exam.graded && |log| >= 1) || (!exam.graded && exam.attempts > 0 && |log| >= exam.attempts)
  }

  predicate AllFinished(exam: Exam, events: seq<Event>) {
    forall k | 0 <= k < |exam.ready| :: Finished(exam, events, exam.ready[k])
  }

  /** The first scores of the first `n` ready elements; an element not yet checked counts nothing. */
  function FirstScores(exam: Exam, events: seq<Event>, n: nat): real
    requires n <= |exam.ready|
  {
    if n == 0 then 0.0
    else
      var log := Log(exam, events, exam.ready[n - 1]);
      FirstScores(exam, events, n - 1) + if log == [] then 0.0 else log[0].score
  }

  /** An element is closed exactly when it is finished. */
  lemma FinishedIs(exam: Exam, events: seq<Event>, id: string)
    requires id in exam.ready
    ensures StateOf(After(exam, events), id).closed <==> Finished(exam, events, id)
  {
    var log := Log(exam, events, id);
    StateIsHistory(exam, events, id);
    if k :| 0 <= k < |log| && log[k].pass { assert k == |log| - 1; }
  }

  lemma CompleteIs(exam: Exam, events: seq<Event>)
    ensures Complete(exam, After(exam, events)) <==> AllFinished(exam, events)
  {
    forall k | 0 <= k < |exam.ready|
      ensures StateOf(After(exam, events), exam.ready[k]).closed <==> Finished(exam, events, exam.ready[k])
    {
      FinishedIs(exam, events, exam.ready[k]);
    }
  }

  lemma {:induction false} TotalIs(exam: Exam, events: seq<Event>, n: nat)
    requires n <= |exam.ready|
    ensures Total(exam, After(exam, events), n) == FirstScores(exam, events, n)
  {
    if n > 0 {
      TotalIs(exam, events, n - 1);
      StateIsHistory(exam, events, exam.ready[n - 1]);
    }
  }

  /** What an accepted submit reports of its element is the history it leaves behind. */
  lemma AnswerReports(exam: Exam, events: seq<Event>, event: Event)
    requires Accepts(exam, After(exam, events), event)
    ensures var answer, next := Step(exam, After(exam, events), event).answer, events + [event];
            var log := Log(exam, next, event.id);
            && answer.states == After(exam, next)
            && answer.attempt == |log| && answer.checksLeft == ChecksLeft(exam, |log|)
            && answer.revealed == RevealedIn(exam, next, event.id)
            && answer.closed == StateOf(After(exam, next), event.id).closed
            && (answer.passed <==> event.Check? && log[|log| - 1].pass)
  {
    var next := events + [event];
    assert next[..|next| - 1] == events && next[|next| - 1] == event;
    StateIsHistory(exam, next, event.id);
    StateIsHistory(exam, events, event.id);
    NextState(exam, After(exam, events), event, event.id);
  }

  /** A graded attempt has one check, another as many as the author gave, or any number. */
  lemma ChecksLeftIs(exam: Exam, checks: nat)
    ensures ChecksLeft(exam, checks) ==
            if exam.graded then Some(if checks >= 1 then 0 else 1)
            else if exam.attempts == 0 then None
            else Some(if checks >= exam.attempts then 0 else exam.attempts - checks)
  {}

  lemma StatesAfter(exam: Exam, events: seq<Event>, event: Event)
    requires Accepts(exam, After(exam, events), event)
    ensures Step(exam, After(exam, events), event).answer.states == After(exam, events + [event])
  {
    var next := events + [event];
    assert next[..|next| - 1] == events && next[|next| - 1] == event;
  }

  /** What an accepted submit reports of the attempt: whether every element is finished now, and whether
      this submit finished the last of them; the mean of the first scores, and whether it reaches the
      threshold. */
  lemma AttemptReports(exam: Exam, events: seq<Event>, event: Event)
    requires Accepts(exam, After(exam, events), event)
    ensures var answer, next := Step(exam, After(exam, events), event).answer, events + [event];
            && answer.complete == AllFinished(exam, next)
            && answer.completedNow == (AllFinished(exam, next) && !AllFinished(exam, events))
            && answer.mean == FirstScores(exam, next, |exam.ready|) / |exam.ready| as real
            && (answer.attemptPassed <==> answer.mean * 100.0 >= exam.threshold as real)
  {
    StatesAfter(exam, events, event);
    CompleteIs(exam, events);
    CompleteIs(exam, events + [event]);
    TotalIs(exam, events + [event], |exam.ready|);
    Reported(exam, After(exam, events), event);
  }

  lemma Reported(exam: Exam, carried: map<string, State>, event: Event)
    requires Accepts(exam, carried, event)
    ensures var answer := Step(exam, carried, event).answer;
            && answer.complete == Complete(exam, answer.states)
            && answer.completedNow == (Complete(exam, answer.states) && !Complete(exam, carried))
            && answer.mean == Total(exam, answer.states, |exam.ready|) / |exam.ready| as real
            && (answer.attemptPassed <==> answer.mean * 100.0 >= exam.threshold as real)
  {}

  lemma NoneHasPassed(s: State, log: seq<Entry>)
    requires (s.passed <==> log != [] && log[|log| - 1].pass) && forall k | 0 <= k < |log| - 1 :: !log[k].pass
    ensures !s.passed <==> forall e | e in log :: !e.pass
  {
    if !s.passed {
      forall e | e in log ensures !e.pass {
        var k :| 0 <= k < |log| && log[k] == e;
      }
    }
  }

  /** A closed element has a first check on record. */
  lemma ClosedHasRecord(exam: Exam, events: seq<Event>, id: string)
    requires id in exam.ready && StateOf(After(exam, events), id).closed
    ensures Log(exam, events, id) != []
    ensures StateOf(After(exam, events), id).firstScore == Some(Log(exam, events, id)[0].score)
  {
    StateIsHistory(exam, events, id);
  }

  // ----- What later submits cannot change -----

  lemma RunStep(exam: Exam, events: seq<Event>, m: nat)
    requires m < |events|
    ensures After(exam, events[..m + 1]) == Next(exam, After(exam, events[..m]), events[m])
    ensures forall id :: Log(exam, events[..m + 1], id)
                         == Log(exam, events[..m], id) + EntryOf(exam, After(exam, events[..m]), events[m], id)
  {
    assert events[..m + 1][..m] == events[..m];
  }

  /** A closed element never reopens and accepts no check any more; what was recorded stays. */
  lemma {:induction false} ClosedStaysClosed(exam: Exam, events: seq<Event>, id: string, n: nat, m: nat)
    requires id in exam.ready && n <= m <= |events|
    ensures var s, t := StateOf(After(exam, events[..n]), id), StateOf(After(exam, events[..m]), id);
            && (s.closed ==> t.closed && Log(exam, events[..m], id) == Log(exam, events[..n], id))
            && (s.firstScore.Some? ==> t.firstScore == s.firstScore && t.firstPassed == s.firstPassed)
            && (s.passed ==> t.passed) && (s.revealed ==> t.revealed)
    decreases m
  {
    if n < m {
      ClosedStaysClosed(exam, events, id, n, m - 1);
      RunStep(exam, events, m - 1);
      StateIsHistory(exam, events[..m - 1], id);
      var log := Log(exam, events[..m - 1], id);
      StepKeeps(exam, After(exam, events[..m - 1]), events[m - 1], id, log, RevealedIn(exam, events[..m - 1], id));
      assert log + [] == log;
    }
  }

  lemma StepKeeps(exam: Exam, carried: map<string, State>, event: Event, id: string, log: seq<Entry>, revealed: bool)
    requires id in exam.ready && Records(exam, StateOf(carried, id), log, revealed)
    ensures var s, t := StateOf(carried, id), StateOf(Next(exam, carried, event), id);
            && (s.closed ==> t.closed && EntryOf(exam, carried, event, id) == [])
            && (s.firstScore.Some? ==> t.firstScore == s.firstScore && t.firstPassed == s.firstPassed)
            && (s.passed ==> t.passed) && (s.revealed ==> t.revealed)
  {
    NextState(exam, carried, event, id);
  }

  /** Step `k` of the run announces that the attempt is complete. */
  ghost predicate CompletedAt(exam: Exam, events: seq<Event>, k: nat)
    requires k < |events|
  {
    var outcome := Step(exam, After(exam, events[..k]), events[k]);
    outcome.Accepted? && outcome.answer.completedNow
  }

  lemma CompletedAtIs(exam: Exam, events: seq<Event>, k: nat)
    requires k < |events|
    ensures CompletedAt(exam, events, k) <==>
              Complete(exam, After(exam, events[..k + 1])) && !Complete(exam, After(exam, events[..k]))
  {
    RunStep(exam, events, k);
  }

  lemma CompleteStays(exam: Exam, events: seq<Event>, n: nat, m: nat)
    requires n <= m <= |events| && Complete(exam, After(exam, events[..n]))
    ensures Complete(exam, After(exam, events[..m]))
  {
    forall k | 0 <= k < |exam.ready| ensures StateOf(After(exam, events[..m]), exam.ready[k]).closed {
      ClosedStaysClosed(exam, events, exam.ready[k], n, m);
    }
  }

  lemma {:induction false} CompletedBefore(exam: Exam, events: seq<Event>, n: nat)
    requires n <= |events| && exam.ready != [] && Complete(exam, After(exam, events[..n]))
    ensures exists k | 0 <= k < n :: CompletedAt(exam, events, k)
    decreases n
  {
    assert !StateOf(map[], exam.ready[0]).closed;
    if n > 0 {
      if Complete(exam, After(exam, events[..n - 1])) {
        CompletedBefore(exam, events, n - 1);
      } else {
        CompletedAtIs(exam, events, n - 1);
      }
    }
  }

  /** The attempt is complete exactly when one submit announced it, and no two submits do: the
      evidence is sent once. */
  lemma CompletedOnce(exam: Exam, events: seq<Event>)
    requires exam.ready != []
    ensures Complete(exam, After(exam, events)) <==> exists k | 0 <= k < |events| :: CompletedAt(exam, events, k)
    ensures forall k, l | 0 <= k < l < |events| && CompletedAt(exam, events, k) :: !CompletedAt(exam, events, l)
  {
    assert events[..|events|] == events;
    forall k, l | 0 <= k < l < |events| && CompletedAt(exam, events, k) ensures !CompletedAt(exam, events, l) {
      CompletedAtIs(exam, events, k);
      CompletedAtIs(exam, events, l);
      CompleteStays(exam, events, k + 1, l);
    }
    if Complete(exam, After(exam, events)) { CompletedBefore(exam, events, |events|); }
    if k :| 0 <= k < |events| && CompletedAt(exam, events, k) {
      CompletedAtIs(exam, events, k);
      CompleteStays(exam, events, k + 1, |events|);
    }
  }

  lemma {:induction false} SameTotal(exam: Exam, a: map<string, State>, b: map<string, State>, n: nat)
    requires n <= |exam.ready|
    requires forall k | 0 <= k < |exam.ready| :: ScoreOf(StateOf(a, exam.ready[k])) == ScoreOf(StateOf(b, exam.ready[k]))
    ensures Total(exam, a, n) == Total(exam, b, n)
  {
    if n > 0 { SameTotal(exam, a, b, n - 1); }
  }

  /** Once the attempt is complete, no submit changes its score. */
  lemma ScoreFrozen(exam: Exam, events: seq<Event>, n: nat)
    requires exam.ready != [] && n <= |events| && Complete(exam, After(exam, events[..n]))
    ensures Mean(exam, After(exam, events)) == Mean(exam, After(exam, events[..n]))
  {
    var a, b := After(exam, events[..n]), After(exam, events);
    forall k | 0 <= k < |exam.ready| ensures ScoreOf(StateOf(a, exam.ready[k])) == ScoreOf(StateOf(b, exam.ready[k])) {
      RecordStays(exam, events, exam.ready[k], n);
    }
    SameTotal(exam, a, b, |exam.ready|);
  }

  lemma RecordStays(exam: Exam, events: seq<Event>, id: string, n: nat)
    requires id in exam.ready && n <= |events| && StateOf(After(exam, events[..n]), id).closed
    ensures StateOf(After(exam, events), id).firstScore == StateOf(After(exam, events[..n]), id).firstScore
  {
    assert events[..|events|] == events;
    ClosedStaysClosed(exam, events, id, n, |events|);
    ClosedHasRecord(exam, events[..n], id);
  }

  // ----- The budget and the clock -----

  ghost predicate Timed(log: seq<Entry>) { forall k | 0 <= k < |log| :: log[k].now.Some? }

  lemma {:induction false} SpacedApart(exam: Exam, log: seq<Entry>, k: nat, l: nat)
    requires exam.interval >= 0 && k < l < |log| && Timed(log) && Spaced(exam, log)
    ensures log[l].now.value - log[k].now.value >= exam.interval * (l - k)
    decreases l - k
  {
    if k < l - 1 {
      SpacedApart(exam, log, k, l - 1);
      assert exam.interval * (l - k) == exam.interval * (l - 1 - k) + exam.interval;
    }
  }

  /** When the server supplies the time of every check, any two accepted checks of one element lie
      at least the interval apart, for each check between them. */
  lemma ChecksApart(exam: Exam, events: seq<Event>, id: string, k: nat, l: nat)
    requires id in exam.ready && exam.interval >= 0
    requires var log := Log(exam, events, id); k < l < |log| && Timed(log)
    ensures var log := Log(exam, events, id);
            log[l].now.value - log[k].now.value >= exam.interval * (l - k)
  {
    StateIsHistory(exam, events, id);
    SpacedApart(exam, Log(exam, events, id), k, l);
  }

  // ----- The attempt's verdict -----

  /** A pass is a score that reaches the threshold. */
  ghost predicate Fair(exam: Exam, event: Event) {
    event.Check? && event.verdict.Graded? ==>
      0.0 <= event.verdict.score <= 1.0
      && (event.verdict.pass ==> event.verdict.score * 100.0 >= exam.threshold as real)
  }

  ghost predicate FairEntry(exam: Exam, e: Entry) {
    0.0 <= e.score <= 1.0 && (e.pass ==> e.score * 100.0 >= exam.threshold as real)
  }

  lemma {:induction false} FairLog(exam: Exam, events: seq<Event>, id: string)
    requires forall k | 0 <= k < |events| :: Fair(exam, events[k])
    ensures forall e | e in Log(exam, events, id) :: FairEntry(exam, e)
    decreases |events|
  {
    if events != [] {
      FairLog(exam, events[..|events| - 1], id);
      assert Fair(exam, events[|events| - 1]);
    }
  }

  lemma {:induction false} TotalBetween(exam: Exam, carried: map<string, State>, n: nat, low: real, high: real)
    requires n <= |exam.ready|
    requires forall k | 0 <= k < |exam.ready| :: low <= ScoreOf(StateOf(carried, exam.ready[k])) <= high
    ensures low * n as real <= Total(exam, carried, n) <= high * n as real
  {
    if n > 0 { TotalBetween(exam, carried, n - 1, low, high); }
  }

  lemma MeanBetween(exam: Exam, carried: map<string, State>, low: real, high: real)
    requires exam.ready != []
    requires forall k | 0 <= k < |exam.ready| :: low <= ScoreOf(StateOf(carried, exam.ready[k])) <= high
    ensures low <= Mean(exam, carried) <= high
  {
    TotalBetween(exam, carried, |exam.ready|, low, high);
    var total, n := Total(exam, carried, |exam.ready|), |exam.ready| as real;
    DivideBetween(total, n, low, high);
  }

  /** The attempt's score is a share; when every element passed on its first check, so does the
      attempt. */
  lemma AttemptVerdict(exam: Exam, events: seq<Event>)
    requires exam.ready != [] && forall k | 0 <= k < |events| :: Fair(exam, events[k])
    ensures 0.0 <= Mean(exam, After(exam, events)) <= 1.0
    ensures (forall k | 0 <= k < |exam.ready| :: StateOf(After(exam, events), exam.ready[k]).firstPassed == Some(true)) ==>
              Mean(exam, After(exam, events)) * 100.0 >= exam.threshold as real
  {
    var carried, low := After(exam, events), exam.threshold as real / 100.0;
    forall k | 0 <= k < |exam.ready|
      ensures 0.0 <= ScoreOf(StateOf(carried, exam.ready[k])) <= 1.0
      ensures StateOf(carried, exam.ready[k]).firstPassed == Some(true) ==> low <= ScoreOf(StateOf(carried, exam.ready[k]))
    {
      StateIsHistory(exam, events, exam.ready[k]);
      FairLog(exam, events, exam.ready[k]);
      var log := Log(exam, events, exam.ready[k]);
      if log != [] { assert FairEntry(exam, log[0]); }
    }
    MeanBetween(exam, carried, 0.0, 1.0);
    if forall k | 0 <= k < |exam.ready| :: StateOf(carried, exam.ready[k]).firstPassed == Some(true) {
      MeanBetween(exam, carried, low, 1.0);
    }
  }
}
