/** One attempt of an exercise answered element by element — the sentences of a dictation, the
    questions over a passage: what a check or a reveal leaves behind. */
module Attempts {
  import opened Options

  /** What the server carries forward for one element between submits. */
  datatype State = State(
    checks: nat,
    firstScore: Option<real>,
    firstPassed: Option<bool>,
    passed: bool,
    revealed: bool,
    closed: bool,
    lastCheckAt: Option<int>)

  const Fresh := State(0, None, None, false, false, false, None)

  /** The document as the attempt sees it: the elements that are ready, in order, and the delivery
      settings. `attempts` 0 is unlimited; `interval` is the time two checks must lie apart. */
  datatype Exam = Exam(
    ready: seq<string>,
    attempts: nat,
    threshold: int,
    revealKey: bool,
    graded: bool,
    interval: int)

  function MaxChecks(exam: Exam): Option<nat> {
    if exam.graded then Some(1) else if exam.attempts == 0 then None else Some(exam.attempts)
  }

  function ChecksLeft(exam: Exam, checks: nat): Option<nat> {
    match MaxChecks(exam)
    case None => None
    case Some(max) => Some(if max > checks then max - checks else 0)
  }

  predicate MayReveal(exam: Exam) { exam.revealKey && !exam.graded }

  /** What grading an answer says: a score and whether it passes, or that it cannot be graded. */
  datatype Verdict = Graded(score: real, pass: bool) | Unreadable

  datatype Event = Check(id: string, now: Option<int>, verdict: Verdict) | Reveal(id: string)

  datatype Refusal = Unknown | AlreadyClosed | TooFast | CannotGrade | RevealNotAllowed

  datatype Answer = Answer(
    states: map<string, State>,
    attempt: nat,
    checksLeft: Option<nat>,
    passed: bool,
    closed: bool,
    revealed: bool,
    complete: bool,
    completedNow: bool,
    mean: real,
    attemptPassed: bool)

  datatype Outcome = Refused(code: Refusal) | Accepted(answer: Answer)

  function StateOf(carried: map<string, State>, id: string): State {
    if id in carried then carried[id] else Fresh
  }

  predicate Complete(exam: Exam, carried: map<string, State>) {
    forall k | 0 <= k < |exam.ready| :: StateOf(carried, exam.ready[k]).closed
  }

  function ScoreOf(s: State): real { if s.firstScore.Some? then s.firstScore.value else 0.0 }

  function Total(exam: Exam, carried: map<string, State>, n: nat): real
    requires n <= |exam.ready|
  {
    if n == 0 then 0.0 else Total(exam, carried, n - 1) + ScoreOf(StateOf(carried, exam.ready[n - 1]))
  }

  /** The mean of the first checks over the ready elements. */
  function Mean(exam: Exam, carried: map<string, State>): real
    requires exam.ready != []
  {
    Total(exam, carried, |exam.ready|) / |exam.ready| as real
  }

  predicate InTime(exam: Exam, prev: State, now: Option<int>) {
    now.None? || prev.lastCheckAt.None? || now.value - prev.lastCheckAt.value >= exam.interval
  }

  function AfterCheck(exam: Exam, prev: State, now: Option<int>, score: real, pass: bool): State {
    State(prev.checks + 1,
          if prev.firstScore.Some? then prev.firstScore else Some(score),
          if prev.firstPassed.Some? then prev.firstPassed else Some(pass),
          prev.passed || pass,
          false,
          pass || ChecksLeft(exam, prev.checks + 1) == Some(0),
          now)
  }

  function Carry(exam: Exam, carried: map<string, State>, id: string, next: State): (m: map<string, State>)
    ensures forall x | x in exam.ready :: StateOf(m, x) == if x == id then next else StateOf(carried, x)
  {
    map x | x in exam.ready :: if x == id then next else StateOf(carried, x)
  }

  function Respond(exam: Exam, carried: map<string, State>, id: string, next: State, pass: bool): Outcome
    requires exam.ready != []
  {
    var states := Carry(exam, carried, id, next);
    Accepted(Answer(states, next.checks, ChecksLeft(exam, next.checks), pass, next.closed, next.revealed,
                    Complete(exam, states), Complete(exam, states) && !Complete(exam, carried),
                    Mean(exam, states), Mean(exam, states) * 100.0 >= exam.threshold as real))
  }

  /** One submit. */
  function Step(exam: Exam, carried: map<string, State>, event: Event): Outcome {
    if event.id !in exam.ready then Refused(Unknown)
    else
      var prev := StateOf(carried, event.id);
      match event
      case Reveal(id) =>
        if prev.passed || prev.revealed then Refused(AlreadyClosed)
        else if !MayReveal(exam) || prev.checks == 0 then Refused(RevealNotAllowed)
        else Respond(exam, carried, id, prev.(revealed := true, closed := true), false)
      case Check(id, now, verdict) =>
        if prev.closed then Refused(AlreadyClosed)
        else if !InTime(exam, prev, now) then Refused(TooFast)
        else
          match verdict
          case Unreadable => Refused(CannotGrade)
          case Graded(score, pass) => Respond(exam, carried, id, AfterCheck(exam, prev, now, score, pass), pass)
  }

  /** The server keeps the states of the last answer; a refused submit changes nothing. */
  function Next(exam: Exam, carried: map<string, State>, event: Event): map<string, State> {
    match Step(exam, carried, event)
    case Refused(_) => carried
    case Accepted(answer) => answer.states
  }

  function After(exam: Exam, events: seq<Event>): map<string, State> {
    if events == [] then map[] else Next(exam, After(exam, events[..|events| - 1]), events[|events| - 1])
  }
}
