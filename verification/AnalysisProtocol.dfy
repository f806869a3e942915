/** Dr. Elephant's analysis daemon as an interleaving of one fetcher thread and any number of
    executor threads over the resource manager, the work queue, the retry queue and the database.

    One step is one action another thread can see.  A run is any sequence of enabled steps, so a
    statement about every run is a statement about every interleaving, with fetches and analyses
    that throw at will. */
module AnalysisProtocol {
  import opened Basics

  const FETCH_DELAY := 60000
  const RETRY_LIMIT := 3

  type Id = string

  datatype Status = SUCCEEDED | FAILED | KILLED
  datatype App = App(finish: int, status: Status, supported: bool)

  /** An analytic job; `attempts` counts its finished analyses, as a history of the run. */
  datatype Job = Job(id: Id, retries: nat, attempts: nat)

  /** What the fetcher thread is doing.  `found` are jobs read in this round, `drained` the ones it has
      polled from the retry queue, `todos` what it still has to hand over to the work queue. */
  datatype Fetcher =
    | Waiting
    | ReadingSucceeded(current: int)
    | ReadingFailed(current: int, found: seq<Job>)
    | Draining(current: int, found: seq<Job>, drained: seq<Job>)
    | Feeding(todos: seq<Job>)
    | Stopped

  /** `seen` holds the applications the resource manager reports; `initialDb` and `firstTime` are history:
      the database at start-up and the time up to which the first complete fetch looked. */
  datatype State = State(
    now: int, seen: map<Id, App>, db: set<Id>,
    lastTime: int, fetcher: Fetcher, retryQueue: seq<Job>, jobQueue: seq<Job>,
    hands: seq<Option<Job>>, saved: seq<Job>, dropped: seq<Job>,
    initialDb: set<Id>, firstTime: int)

  // ---------------------------------------------------------------- operations of the daemon

  /** The loop of `readApps` over the ids in one answer of the resource manager. */
  function ReadApps(answer: seq<Id>, seen: map<Id, App>, lastTime: int, db: set<Id>): seq<Job>
    requires forall id :: id in answer ==> id in seen
  {
    if answer == [] then []
    else
      var id := answer[0];
      var rest := ReadApps(answer[1..], seen, lastTime, db);
      if (lastTime > 0 || (lastTime == 0 && id !in db)) && seen[id].supported then [Job(id, 0, 0)] + rest else rest
  }

  /** `AnalyticJob.retry`: count the failure and say whether to try again. */
  function Retry(job: Job): (Job, bool) {
    (job.(retries := job.retries + 1), job.retries < RETRY_LIMIT)
  }

  /** An answer to the query for one final status and an inclusive range of finish times. */
  ghost predicate IsAnswer(answer: seq<Id>, seen: map<Id, App>, status: Status, begin: int, end: int) {
    && (forall i, j :: 0 <= i < j < |answer| ==> answer[i] != answer[j])
    && (forall id :: id in answer <==> id in seen && seen[id].status == status && begin <= seen[id].finish <= end)
  }

  // ---------------------------------------------------------------- steps

  datatype Step =
    | Tick(time: int)                      // the clock advances
    | Report(id: Id, app: App)             // an application shows up at the resource manager
    | StartFetch
    | ReadSucceeded(answer: seq<Id>)
    | ReadFailed(answer: seq<Id>)
    | ThrowFetch                           // either query fails
    // The search for the active resource manager throws what it does not catch, as status.equals does where an answer
    // has no haState: the fetch loop ends.
    | StopFetcher
    | DrainOne
    | Commit                               // the retry queue looked empty: remember the time, return the list
    | FeedOne
    | EndFeed
    | Take(e: nat)                         // executor e takes the head of the work queue
    | Save(e: nat)                         // its analysis succeeds and is saved
    | Fail(e: nat)                         // its analysis or the save throws

  ghost predicate Enabled(s: State, step: Step) {
    match step
    case Tick(time) => s.now <= time
    // The one-minute lag: what finished a minute ago or more is already reported.
    case Report(id, app) => id !in s.seen && app.finish > s.now - 60000
    case StartFetch => s.fetcher.Waiting?
    case ReadSucceeded(answer) =>
      s.fetcher.ReadingSucceeded? && IsAnswer(answer, s.seen, SUCCEEDED, s.lastTime + 1, s.fetcher.current)
    case ReadFailed(answer) =>
      s.fetcher.ReadingFailed? && IsAnswer(answer, s.seen, FAILED, s.lastTime + 1, s.fetcher.current)
    case ThrowFetch => s.fetcher.ReadingSucceeded? || s.fetcher.ReadingFailed?
    case StopFetcher => s.fetcher.Waiting?
    case DrainOne => s.fetcher.Draining? && s.retryQueue != []
    case Commit => s.fetcher.Draining? && s.retryQueue == []
    case FeedOne => s.fetcher.Feeding? && s.fetcher.todos != []
    case EndFeed => s.fetcher.Feeding? && s.fetcher.todos == []
    case Take(e) => e < |s.hands| && s.hands[e].None? && s.jobQueue != []
    case Save(e) => e < |s.hands| && s.hands[e].Some?
    case Fail(e) => e < |s.hands| && s.hands[e].Some?
  }

  ghost function Next(s: State, step: Step): State
    requires Enabled(s, step)
  {
    match step
    case Tick(time) => s.(now := time)
    case Report(id, app) => s.(seen := s.seen[id := app])
    case StartFetch => s.(fetcher := Fetcher.ReadingSucceeded(s.now - FETCH_DELAY))
    case ReadSucceeded(answer) =>
      s.(fetcher := Fetcher.ReadingFailed(s.fetcher.current, ReadApps(answer, s.seen, s.lastTime, s.db)))
    case ReadFailed(answer) =>
      s.(fetcher := Draining(s.fetcher.current, s.fetcher.found + ReadApps(answer, s.seen, s.lastTime, s.db), []))
    case ThrowFetch => s.(fetcher := Waiting)
    case StopFetcher => s.(fetcher := Stopped)
    case DrainOne =>
      s.(fetcher := s.fetcher.(drained := s.fetcher.drained + [s.retryQueue[0]]), retryQueue := s.retryQueue[1..])
    case Commit =>
      s.(lastTime := s.fetcher.current, fetcher := Feeding(s.fetcher.found + s.fetcher.drained),
         firstTime := if s.lastTime == 0 then s.fetcher.current else s.firstTime)
    case FeedOne =>
      s.(fetcher := Feeding(s.fetcher.todos[1..]), jobQueue := s.jobQueue + [s.fetcher.todos[0]])
    case EndFeed => s.(fetcher := Waiting)
    case Take(e) => s.(hands := s.hands[e := Some(s.jobQueue[0])], jobQueue := s.jobQueue[1..])
    case Save(e) =>
      var job := s.hands[e].value;
      s.(hands := s.hands[e := None], saved := s.saved + [job.(attempts := job.attempts + 1)], db := s.db + {job.id})
    case Fail(e) =>
      var (job, again) := Retry(s.hands[e].value);
      var failed := job.(attempts := job.attempts + 1);
      var s' := s.(hands := s.hands[e := None]);
      if again then s'.(retryQueue := s.retryQueue + [failed]) else s'.(dropped := s.dropped + [failed])
  }

  /** Start-up, at a time more than a minute after the epoch, with any number of executors. */
  ghost predicate Init(s: State) {
    && s.now > 60000 && s.db == s.initialDb && s.lastTime == 0 && s.fetcher == Waiting
    && s.retryQueue == [] && s.jobQueue == [] && (forall e :: 0 <= e < |s.hands| ==> s.hands[e].None?)
    && s.saved == [] && s.dropped == [] && s.firstTime == 0
  }

  /** states[0] is initial and each state follows from the one before by an enabled step. */
  ghost predicate IsRun(states: seq<State>, steps: seq<Step>) {
    && |states| == |steps| + 1 && Init(states[0])
    && (forall i :: 0 <= i < |steps| ==> Enabled(states[i], steps[i]) && states[i + 1] == Next(states[i], steps[i]))
  }

  // ---------------------------------------------------------------- where the jobs are

  /** How many jobs of an application a queue holds. */
  function Count(jobs: seq<Job>, id: Id): nat {
    if jobs == [] then 0 else (if jobs[0].id == id then 1 else 0) + Count(jobs[1..], id)
  }

  function Has(o: Option<Job>, id: Id): nat { if o.Some? && o.value.id == id then 1 else 0 }

  function CountHands(hands: seq<Option<Job>>, id: Id): nat {
    if hands == [] then 0 else Has(hands[0], id) + CountHands(hands[1..], id)
  }

  /** The jobs of earlier rounds in the fetcher's hands. */
  function Carried(f: Fetcher): seq<Job> {
    match f
    case Draining(_, _, drained) => drained
    case Feeding(todos) => todos
    case _ => []
  }

  /** How many places of the system hold a job of an application. */
  function Places(s: State, id: Id): nat {
    Count(Carried(s.fetcher), id) + Count(s.retryQueue, id) + Count(s.jobQueue, id) + CountHands(s.hands, id)
      + Count(s.saved, id) + Count(s.dropped, id)
  }

  /** An application the daemon must analyse, with its finish time in a window and not in the given
      part of the database. */
  predicate Wanted(s: State, id: Id, begin: int, end: int, db: set<Id>) {
    id in s.seen && s.seen[id].supported && s.seen[id].status != KILLED && begin <= s.seen[id].finish <= end
      && id !in db
  }

  /** An application that must have a job by now: in the first window and not in the database at
      start-up, or in a window after it. */
  predicate Due(s: State, id: Id) {
    Wanted(s, id, 1, s.firstTime, s.initialDb) || Wanted(s, id, s.firstTime + 1, s.lastTime, {})
  }

  lemma {:induction false} CountAppend(a: seq<Job>, b: seq<Job>, id: Id)
    ensures Count(a + b, id) == Count(a, id) + Count(b, id)
  {
    if a == [] {
      assert a + b == b;
    } else {
      CountAppend(a[1..], b, id);
      assert (a + b)[1..] == a[1..] + b;
    }
  }

  lemma {:induction false} CountHandsUpdate(hands: seq<Option<Job>>, e: nat, o: Option<Job>, id: Id)
    requires e < |hands|
    ensures CountHands(hands[e := o], id) + Has(hands[e], id) == CountHands(hands, id) + Has(o, id)
  {
    if e == 0 {
      assert hands[e := o][1..] == hands[1..];
    } else {
      CountHandsUpdate(hands[1..], e - 1, o, id);
      assert hands[e := o][1..] == hands[1..][e - 1 := o];
    }
  }

  lemma {:induction false} CountNone(hands: seq<Option<Job>>, id: Id)
    requires forall e :: 0 <= e < |hands| ==> hands[e].None?
    ensures CountHands(hands, id) == 0
  {
    if hands != [] {
      CountNone(hands[1..], id);
    }
  }

  // ---------------------------------------------------------------- invariants

  /** The clock and the two times; a fetch under way looks past the last one and a minute back. */
  ghost predicate TimesInOrder(s: State) {
    && s.now > 60000 && 0 <= s.firstTime <= s.lastTime <= s.now - 60000
    && (s.firstTime == 0 <==> s.lastTime == 0)
    && (s.fetcher.ReadingSucceeded? || s.fetcher.ReadingFailed? || s.fetcher.Draining? ==>
          0 < s.fetcher.current && s.lastTime <= s.fetcher.current <= s.now - 60000)
  }

  /** Every application that is due has its job in exactly one place, and no other has any. */
  ghost predicate OneJobEach(s: State) {
    forall id :: Places(s, id) == if Due(s, id) then 1 else 0
  }

  ghost predicate DatabaseGrows(s: State) {
    forall id :: id in s.db <==> id in s.initialDb || Count(s.saved, id) > 0
  }

  /** The applications of one final status that a fetch up to `current` keeps. */
  predicate Keeps(s: State, status: Status, current: int, id: Id) {
    id in s.seen && s.seen[id].status == status
    && Wanted(s, id, s.lastTime + 1, current, if s.lastTime == 0 then s.initialDb else {})
  }

  /** What a fetch under way has read so far. */
  ghost predicate FoundSoFar(s: State) {
    match s.fetcher
    case ReadingFailed(current, found) =>
      forall id :: Count(found, id) == if Keeps(s, SUCCEEDED, current, id) then 1 else 0
    case Draining(current, found, _) =>
      forall id :: Count(found, id) == if Keeps(s, SUCCEEDED, current, id) || Keeps(s, FAILED, current, id)
                                        then 1 else 0
    case _ => true
  }

  /** `readApps` makes one job for each application of the answer that it keeps. */
  lemma {:induction false} ReadAppsCount(answer: seq<Id>, seen: map<Id, App>, lastTime: int, db: set<Id>, id: Id)
    requires forall id :: id in answer ==> id in seen
    requires forall i, j :: 0 <= i < j < |answer| ==> answer[i] != answer[j]
    requires lastTime >= 0
    ensures Count(ReadApps(answer, seen, lastTime, db), id) ==
            if id in answer && seen[id].supported && (lastTime > 0 || id !in db) then 1 else 0
  {
    if answer != [] {
      var x, rest := answer[0], answer[1..];
      ReadAppsCount(rest, seen, lastTime, db, id);
      assert x !in rest;
      var jobs := ReadApps(rest, seen, lastTime, db);
      assert ([Job(x, 0, 0)] + jobs)[1..] == jobs;
    }
  }

  /** The jobs come in the order of the answer. */
  lemma {:induction false} ReadAppsOrder(answer: seq<Id>, seen: map<Id, App>, lastTime: int, db: set<Id>)
      returns (places: seq<nat>)
    requires forall id :: id in answer ==> id in seen
    ensures var jobs := ReadApps(answer, seen, lastTime, db);
            && |places| == |jobs| && (forall i, j :: 0 <= i < j < |places| ==> places[i] < places[j])
            && forall i :: 0 <= i < |places| ==> places[i] < |answer| && jobs[i].id == answer[places[i]]
  {
    places := [];
    if answer != [] {
      var rest := ReadAppsOrder(answer[1..], seen, lastTime, db);
      var later := seq(|rest|, i requires 0 <= i < |rest| => rest[i] + 1);
      places := if |ReadApps(answer, seen, lastTime, db)| == |rest| then later else [0] + later;
    }
  }

  /** Nothing is in the database beyond its initial contents before the first fetch completes. */
  lemma NothingSavedYet(s: State)
    requires TimesInOrder(s) && OneJobEach(s) && DatabaseGrows(s) && s.lastTime == 0
    ensures s.db == s.initialDb
  {
    forall id ensures id in s.db <==> id in s.initialDb {
      assert !Due(s, id);
      assert Places(s, id) == 0;
    }
  }

  lemma AnswerCount(s: State, answer: seq<Id>, status: Status, current: int, id: Id)
    requires TimesInOrder(s) && OneJobEach(s) && DatabaseGrows(s) && status != KILLED
    requires IsAnswer(answer, s.seen, status, s.lastTime + 1, current)
    ensures Count(ReadApps(answer, s.seen, s.lastTime, s.db), id) == if Keeps(s, status, current, id) then 1 else 0
  {
    if s.lastTime == 0 {
      NothingSavedYet(s);
    }
    ReadAppsCount(answer, s.seen, s.lastTime, s.db, id);
  }

  lemma StepTimes(s: State, step: Step)
    requires TimesInOrder(s) && Enabled(s, step)
    ensures TimesInOrder(Next(s, step))
  {
  }

  /** What becomes due when a fetch completes is what it has found, and it was not due before. */
  lemma CommitDue(s: State, id: Id)
    requires TimesInOrder(s) && FoundSoFar(s) && Enabled(s, Commit)
    ensures (if Due(Next(s, Commit), id) then 1 else 0) == (if Due(s, id) then 1 else 0) + Count(s.fetcher.found, id)
  {
  }

  /** A report comes too late for the windows already looked at. */
  lemma StepDue(s: State, step: Step, id: Id)
    requires TimesInOrder(s) && Enabled(s, step) && step != Commit
    ensures Due(Next(s, step), id) <==> Due(s, id)
  {
  }

  lemma StepKeeps(s: State, step: Step, status: Status, current: int, id: Id)
    requires TimesInOrder(s) && Enabled(s, step) && step != Commit && current <= s.now - 60000
    ensures Keeps(Next(s, step), status, current, id) <==> Keeps(s, status, current, id)
  {
  }

  lemma StepFound(s: State, step: Step)
    requires TimesInOrder(s) && OneJobEach(s) && DatabaseGrows(s) && FoundSoFar(s) && Enabled(s, step)
    ensures FoundSoFar(Next(s, step))
  {
    var s' := Next(s, step);
    if s'.fetcher.ReadingFailed? || s'.fetcher.Draining? {
      forall id
        ensures Count(s'.fetcher.found, id) == if Keeps(s', SUCCEEDED, s'.fetcher.current, id)
                                                  || (s'.fetcher.Draining?
                                                      && Keeps(s', FAILED, s'.fetcher.current, id))
                                              then 1 else 0
      {
        FoundAt(s, step, id);
      }
    }
  }

  lemma FoundAt(s: State, step: Step, id: Id)
    requires TimesInOrder(s) && OneJobEach(s) && DatabaseGrows(s) && FoundSoFar(s) && Enabled(s, step)
    requires Next(s, step).fetcher.ReadingFailed? || Next(s, step).fetcher.Draining?
    ensures var s' := Next(s, step);
            Count(s'.fetcher.found, id) == if Keeps(s', SUCCEEDED, s'.fetcher.current, id)
                                              || (s'.fetcher.Draining?
                                                  && Keeps(s', FAILED, s'.fetcher.current, id)) then 1 else 0
  {
    StepKeeps(s, step, SUCCEEDED, s.fetcher.current, id);
    StepKeeps(s, step, FAILED, s.fetcher.current, id);
    match step
    case ReadSucceeded(answer) => AnswerCount(s, answer, SUCCEEDED, s.fetcher.current, id);
    case ReadFailed(answer) =>
      AnswerCount(s, answer, FAILED, s.fetcher.current, id);
      CountAppend(s.fetcher.found, ReadApps(answer, s.seen, s.lastTime, s.db), id);
    case _ =>
  }

  lemma StepDatabase(s: State, step: Step)
    requires DatabaseGrows(s) && Enabled(s, step)
    ensures DatabaseGrows(Next(s, step))
  {
    if step.Save? {
      var job := s.hands[step.e].value;
      forall id ensures id in Next(s, step).db <==> id in s.initialDb || Count(Next(s, step).saved, id) > 0 {
        CountAppend(s.saved, [job.(attempts := job.attempts + 1)], id);
      }
    }
  }

  /** Every step but the end of a fetch only moves jobs from place to place. */
  lemma StepPlaces(s: State, step: Step, id: Id)
    requires Enabled(s, step)
    ensures Places(Next(s, step), id) == Places(s, id) + if step == Commit then Count(s.fetcher.found, id) else 0
  {
    match step
    case DrainOne => CountAppend(s.fetcher.drained, [s.retryQueue[0]], id);
    case Commit => CountAppend(s.fetcher.found, s.fetcher.drained, id);
    case FeedOne => CountAppend(s.jobQueue, [s.fetcher.todos[0]], id);
    case Take(e) => CountHandsUpdate(s.hands, e, Some(s.jobQueue[0]), id);
    case Save(e) => SavePlaces(s, e, id);
    case Fail(e) => FailPlaces(s, e, id);
    case _ =>
  }

  lemma SavePlaces(s: State, e: nat, id: Id)
    requires Enabled(s, Save(e))
    ensures Places(Next(s, Save(e)), id) == Places(s, id)
  {
    var job := s.hands[e].value;
    CountHandsUpdate(s.hands, e, None, id);
    CountAppend(s.saved, [job.(attempts := job.attempts + 1)], id);
  }

  lemma FailPlaces(s: State, e: nat, id: Id)
    requires Enabled(s, Fail(e))
    ensures Places(Next(s, Fail(e)), id) == Places(s, id)
  {
    var job := s.hands[e].value;
    var failed := job.(retries := job.retries + 1, attempts := job.attempts + 1);
    CountHandsUpdate(s.hands, e, None, id);
    CountAppend(s.retryQueue, [failed], id);
    CountAppend(s.dropped, [failed], id);
  }

  ghost predicate Invariant(s: State) {
    TimesInOrder(s) && OneJobEach(s) && DatabaseGrows(s) && FoundSoFar(s)
  }

  lemma InitInvariant(s: State)
    requires Init(s)
    ensures Invariant(s)
  {
    forall id ensures Places(s, id) == 0 && !Due(s, id) {
      CountNone(s.hands, id);
    }
  }

  lemma StepInvariant(s: State, step: Step)
    requires Invariant(s) && Enabled(s, step)
    ensures Invariant(Next(s, step))
  {
    StepTimes(s, step);
    StepFound(s, step);
    StepDatabase(s, step);
    forall id ensures Places(Next(s, step), id) == if Due(Next(s, step), id) then 1 else 0 {
      StepPlaces(s, step, id);
      if step == Commit {
        CommitDue(s, id);
      } else {
        StepDue(s, step, id);
      }
    }
  }

  lemma {:induction false} RunInvariant(states: seq<State>, steps: seq<Step>, i: nat)
    requires IsRun(states, steps) && i < |states|
    ensures Invariant(states[i])
  {
    if i == 0 {
      InitInvariant(states[0]);
    } else {
      RunInvariant(states, steps, i - 1);
      StepInvariant(states[i - 1], steps[i - 1]);
    }
  }

  /** In every interleaving, at every moment: an application that is due has exactly one job, in exactly
      one of the fetcher's list, the retry queue, the work queue, an executor's hands, the database or
      the dropped jobs; one that is not due has none. */
  lemma ExactlyOneJob(states: seq<State>, steps: seq<Step>, i: nat, id: Id)
    requires IsRun(states, steps) && i < |states|
    ensures Places(states[i], id) == if Due(states[i], id) then 1 else 0
  {
    RunInvariant(states, steps, i);
  }

  /** An application whose job was saved or dropped is in no queue and is never fetched again. */
  lemma AnalysedOnce(states: seq<State>, steps: seq<Step>, i: nat, id: Id)
    requires IsRun(states, steps) && i < |states|
    requires Count(states[i].saved, id) + Count(states[i].dropped, id) > 0
    ensures Count(Carried(states[i].fetcher), id) == 0 && Count(states[i].retryQueue, id) == 0
    ensures Count(states[i].jobQueue, id) == 0 && CountHands(states[i].hands, id) == 0
    ensures (states[i].fetcher.ReadingFailed? || states[i].fetcher.Draining?) ==>
              Count(states[i].fetcher.found, id) == 0
  {
    RunInvariant(states, steps, i);
    var s := states[i];
    assert Places(s, id) == 1 && Due(s, id);
  }

  // ---------------------------------------------------------------- attempts

  predicate AllFresh(jobs: seq<Job>) { forall j :: j in jobs ==> j.retries == 0 && j.attempts == 0 }

  predicate AllLive(jobs: seq<Job>) { forall j :: j in jobs ==> j.retries == j.attempts <= 3 }

  /** Jobs still under way have failed as often as they have been tried, at most three times; saved ones
      were tried one to four times, dropped ones four times, and failed each time. */
  predicate AttemptsBounded(s: State) {
    && (s.fetcher.ReadingFailed? || s.fetcher.Draining? ==> AllFresh(s.fetcher.found))
    && AllLive(Carried(s.fetcher)) && AllLive(s.retryQueue) && AllLive(s.jobQueue)
    && (forall e :: 0 <= e < |s.hands| && s.hands[e].Some? ==> AllLive([s.hands[e].value]))
    && (forall j :: j in s.saved ==> j.attempts == j.retries + 1 <= 4)
    && (forall j :: j in s.dropped ==> j.attempts == j.retries == 4)
  }

  lemma {:induction false} ReadAppsFresh(answer: seq<Id>, seen: map<Id, App>, lastTime: int, db: set<Id>)
    requires forall id :: id in answer ==> id in seen
    ensures AllFresh(ReadApps(answer, seen, lastTime, db))
  {
    if answer != [] {
      ReadAppsFresh(answer[1..], seen, lastTime, db);
    }
  }

  lemma StepAttempts(s: State, step: Step)
    requires AttemptsBounded(s) && Enabled(s, step)
    ensures AttemptsBounded(Next(s, step))
  {
    hide ReadApps;
    match step
    case ReadSucceeded(answer) => ReadAppsFresh(answer, s.seen, s.lastTime, s.db);
    case ReadFailed(answer) => ReadAppsFresh(answer, s.seen, s.lastTime, s.db);
    case Save(e) => FinishAttempts(s, step);
    case Fail(e) => FinishAttempts(s, step);
    case _ =>
  }

  lemma FinishAttempts(s: State, step: Step)
    requires AttemptsBounded(s) && Enabled(s, step) && Completes(step)
    ensures AttemptsBounded(Next(s, step))
  {
    assert s.hands[step.e].value in [s.hands[step.e].value];
  }

  /** No job is analysed more than four times in any run, and a dropped one failed exactly four times. */
  lemma {:induction false} AtMostFourAttempts(states: seq<State>, steps: seq<Step>, i: nat)
    requires IsRun(states, steps) && i < |states|
    ensures AttemptsBounded(states[i])
    ensures forall job :: job in states[i].saved ==> 1 <= job.attempts <= 4
    ensures forall job :: job in states[i].dropped ==> job.attempts == job.retries == 4
  {
    if i > 0 {
      AtMostFourAttempts(states, steps, i - 1);
      StepAttempts(states[i - 1], steps[i - 1]);
    }
  }

  /** The attempts a job, a queue and the executors have left. */
  function LeftOf(job: Job): nat { if job.retries <= 3 then 4 - job.retries else 0 }

  function Left(jobs: seq<Job>): nat { if jobs == [] then 0 else LeftOf(jobs[0]) + Left(jobs[1..]) }

  function LeftInHand(o: Option<Job>): nat { if o.Some? then LeftOf(o.value) else 0 }

  function LeftInHands(hands: seq<Option<Job>>): nat {
    if hands == [] then 0 else LeftInHand(hands[0]) + LeftInHands(hands[1..])
  }

  /** The attempts the jobs under way have left. */
  function Remaining(s: State): nat {
    Left(Carried(s.fetcher)) + Left(s.retryQueue) + Left(s.jobQueue) + LeftInHands(s.hands)
  }

  lemma {:induction false} LeftAppend(a: seq<Job>, b: seq<Job>)
    ensures Left(a + b) == Left(a) + Left(b)
  {
    if a == [] {
      assert a + b == b;
    } else {
      LeftAppend(a[1..], b);
      assert (a + b)[1..] == a[1..] + b;
    }
  }

  lemma {:induction false} LeftInHandsUpdate(hands: seq<Option<Job>>, e: nat, o: Option<Job>)
    requires e < |hands|
    ensures LeftInHands(hands[e := o]) + LeftInHand(hands[e]) == LeftInHands(hands) + LeftInHand(o)
  {
    if e == 0 {
      assert hands[e := o][1..] == hands[1..];
    } else {
      LeftInHandsUpdate(hands[1..], e - 1, o);
      assert hands[e := o][1..] == hands[1..][e - 1 := o];
    }
  }

  lemma {:induction false} LeftFresh(jobs: seq<Job>)
    requires AllFresh(jobs)
    ensures Left(jobs) == 4 * |jobs|
  {
    if jobs != [] {
      LeftFresh(jobs[1..]);
    }
  }

  predicate Completes(step: Step) { step.Save? || step.Fail? }

  /** A finished analysis uses up an attempt, a finished fetch brings four for each new job, and nothing
      else changes what is left. */
  lemma StepRemaining(s: State, step: Step)
    requires AttemptsBounded(s) && Enabled(s, step)
    ensures step.Fail? ==> Remaining(Next(s, step)) == Remaining(s) - 1
    ensures step.Save? ==> Remaining(Next(s, step)) < Remaining(s)
    ensures step == Commit ==> Remaining(Next(s, step)) == Remaining(s) + 4 * |s.fetcher.found|
    ensures !Completes(step) && step != Commit ==> Remaining(Next(s, step)) == Remaining(s)
  {
    if step == Commit { LeftFresh(s.fetcher.found); }
    hide AttemptsBounded, IsAnswer, ReadApps;
    match step
    case DrainOne => LeftAppend(s.fetcher.drained, [s.retryQueue[0]]);
    case Commit => LeftAppend(s.fetcher.found, s.fetcher.drained);
    case FeedOne => LeftAppend(s.jobQueue, [s.fetcher.todos[0]]);
    case Take(e) => TakeRemaining(s, e);
    case Save(e) => SaveRemaining(s, e);
    case Fail(e) => FailRemaining(s, e);
    case _ =>
  }

  lemma TakeRemaining(s: State, e: nat)
    requires Enabled(s, Take(e))
    ensures Remaining(Next(s, Take(e))) == Remaining(s)
  {
    LeftInHandsUpdate(s.hands, e, Some(s.jobQueue[0]));
  }

  lemma SaveRemaining(s: State, e: nat)
    requires AttemptsBounded(s) && Enabled(s, Save(e))
    ensures Remaining(Next(s, Save(e))) < Remaining(s)
  {
    LiveInHand(s, e);
    hide AttemptsBounded;
    LeftInHandsUpdate(s.hands, e, None);
  }

  lemma LiveInHand(s: State, e: nat)
    requires AttemptsBounded(s) && e < |s.hands| && s.hands[e].Some?
    ensures s.hands[e].value.retries <= 3
  {
    assert s.hands[e].value in [s.hands[e].value];
  }

  lemma FailRemaining(s: State, e: nat)
    requires AttemptsBounded(s) && Enabled(s, Fail(e))
    ensures Remaining(Next(s, Fail(e))) == Remaining(s) - 1
  {
    LiveInHand(s, e);
    hide AttemptsBounded;
    var job := s.hands[e].value;
    LeftInHandsUpdate(s.hands, e, None);
    LeftAppend(s.retryQueue, [job.(retries := job.retries + 1, attempts := job.attempts + 1)]);
  }

  /** The jobs the fetches of a run have found, and the analyses it has finished. */
  function Found(states: seq<State>, steps: seq<Step>): nat
    requires |states| == |steps| + 1
  {
    if steps == [] then 0
    else Found(states[..|steps|], steps[..|steps| - 1])
         + (if steps[|steps| - 1] == Commit && states[|steps| - 1].fetcher.Draining?
            then |states[|steps| - 1].fetcher.found| else 0)
  }

  function Completed(steps: seq<Step>): nat {
    if steps == [] then 0 else Completed(steps[..|steps| - 1]) + if Completes(steps[|steps| - 1]) then 1 else 0
  }

  /** However the threads interleave, a run finishes at most four analyses for each job its fetches found, less the
      attempts that the jobs under way have left. */
  lemma {:induction false} AnalysesBounded(states: seq<State>, steps: seq<Step>)
    requires IsRun(states, steps)
    ensures Completed(steps) + Remaining(states[|steps|]) <= 4 * Found(states, steps)
  {
    var n := |steps|;
    if n == 0 {
      NoneInHands(states[0].hands);
    } else {
      assert IsRun(states[..n], steps[..n - 1]);
      AnalysesBounded(states[..n], steps[..n - 1]);
      AtMostFourAttempts(states, steps, n - 1);
      StepRemaining(states[n - 1], steps[n - 1]);
    }
  }

  lemma {:induction false} NoneInHands(hands: seq<Option<Job>>)
    requires forall e :: 0 <= e < |hands| ==> hands[e].None?
    ensures LeftInHands(hands) == 0
  {
    if hands != [] {
      NoneInHands(hands[1..]);
    }
  }

  // ---------------------------------------------------------------- one undisturbed fetch

  ghost function After(s: State, steps: seq<Step>): Option<State>
    decreases |steps|
  {
    if steps == [] then Some(s)
    else if Enabled(s, steps[0]) then After(Next(s, steps[0]), steps[1..])
    else None
  }

  function Drains(n: nat): seq<Step> { if n == 0 then [Commit] else [DrainOne] + Drains(n - 1) }

  lemma {:induction false} DrainAll(s: State)
    requires s.fetcher.Draining?
    ensures After(s, Drains(|s.retryQueue|)) ==
            Some(s.(lastTime := s.fetcher.current,
                    fetcher := Feeding(s.fetcher.found + (s.fetcher.drained + s.retryQueue)),
                    retryQueue := [], firstTime := if s.lastTime == 0 then s.fetcher.current else s.firstTime))
    decreases |s.retryQueue|
  {
    var f := s.fetcher;
    if s.retryQueue == [] {
      assert f.drained + [] == f.drained;
      assert Drains(0)[1..] == [];
    } else {
      var s' := Next(s, DrainOne);
      DrainAll(s');
      assert Drains(|s.retryQueue|)[1..] == Drains(|s'.retryQueue|);
      assert f.drained + [s.retryQueue[0]] + s.retryQueue[1..] == f.drained + s.retryQueue;
    }
  }

  /** A fetch no other thread interferes with hands over the succeeded applications, the failed ones and
      the whole retry queue, in that order. */
  lemma UndisturbedFetch(s: State, succeeded: seq<Id>, failed: seq<Id>)
    requires s.fetcher.Waiting?
    requires IsAnswer(succeeded, s.seen, SUCCEEDED, s.lastTime + 1, s.now - 60000)
    requires IsAnswer(failed, s.seen, FAILED, s.lastTime + 1, s.now - 60000)
    ensures var r := After(s, [StartFetch, ReadSucceeded(succeeded), ReadFailed(failed)] + Drains(|s.retryQueue|));
            && r.Some? && r.value.lastTime == s.now - 60000 && r.value.retryQueue == []
            && r.value.fetcher == Feeding(ReadApps(succeeded, s.seen, s.lastTime, s.db)
                                          + ReadApps(failed, s.seen, s.lastTime, s.db)
                                          + s.retryQueue)
            && r.value.jobQueue == s.jobQueue && r.value.hands == s.hands && r.value.saved == s.saved
                 && r.value.dropped == s.dropped
  {
    var d := Drains(|s.retryQueue|);
    var steps := [StartFetch, ReadSucceeded(succeeded), ReadFailed(failed)] + d;
    var s1 := Next(s, StartFetch);
    var s2 := Next(s1, ReadSucceeded(succeeded));
    var s3 := Next(s2, ReadFailed(failed));
    assert steps[1..][1..][1..] == d;
    assert [] + s.retryQueue == s.retryQueue;
    DrainAll(s3);
    assert After(s1, steps[1..]) == After(s2, steps[1..][1..]);
    assert After(s2, steps[1..][1..]) == After(s3, d);
  }
}
