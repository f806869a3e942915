/** What the daemon does if every thread gets to act again and again: each application that is due is saved or dropped
    in the end, however many others are found in the meantime and whichever attempts fail. */
module AnalysisFairness {
  import opened Basics
  import opened AnalysisProtocol
  import AnalysisLiveness

  /** A run without end. */
  datatype Run = Run(states: nat -> State, steps: nat -> Step)

  ghost predicate Follows(run: Run, i: nat) {
    Enabled(run.states(i), run.steps(i)) && run.states(i + 1) == Next(run.states(i), run.steps(i))
  }

  predicate ByFetcher(step: Step) { !step.Tick? && !step.Report? && !step.Take? && !Completes(step) }

  predicate ByExecutor(step: Step, e: nat) { step == Take(e) || step == Save(e) || step == Fail(e) }

  /** An executor without a job waits while the work queue is empty. */
  predicate CanAct(s: State, e: nat) { e < |s.hands| && (s.hands[e].Some? || s.jobQueue != []) }

  ghost predicate FetcherActs(run: Run, i: nat) { exists j: nat :: j >= i && ByFetcher(run.steps(j)) }

  ghost predicate ExecutorActs(run: Run, i: nat, e: nat) {
    exists j: nat :: j >= i && (ByExecutor(run.steps(j), e) || !CanAct(run.states(j), e))
  }

  ghost predicate Answered(run: Run, i: nat) { exists j: nat :: j >= i && run.steps(j).ReadFailed? }

  /** Every thread is scheduled again and again, the fetch loop does not end, and not all queries from some time on
      fail. */
  ghost predicate Fair(run: Run) {
    && Init(run.states(0)) && (forall i: nat :: Follows(run, i))
    && (forall i: nat :: FetcherActs(run, i))
    && (forall i: nat :: run.steps(i) == ThrowFetch ==> Answered(run, i))
    && (forall i: nat, e: nat :: ExecutorActs(run, i, e))
  }

  lemma {:induction false} Always(run: Run, i: nat)
    requires Fair(run)
    ensures Invariant(run.states(i)) && AttemptsBounded(run.states(i))
    ensures |run.states(i).hands| == |run.states(0).hands|
  {
    if i == 0 {
      InitInvariant(run.states(0));
    } else {
      Always(run, i - 1);
      assert Follows(run, i - 1);
      StepInvariant(run.states(i - 1), run.steps(i - 1));
      StepAttempts(run.states(i - 1), run.steps(i - 1));
    }
  }

  lemma StepAt(run: Run, i: nat)
    requires Fair(run)
    ensures Follows(run, i)
  {
  }

  lemma ExecutorTurn(run: Run, i: nat, e: nat) returns (j: nat)
    requires Fair(run)
    ensures j >= i && (ByExecutor(run.steps(j), e) || !CanAct(run.states(j), e))
  {
    assert ExecutorActs(run, i, e);
    j :| j >= i && (ByExecutor(run.steps(j), e) || !CanAct(run.states(j), e));
  }

  lemma FetcherTurn(run: Run, i: nat) returns (j: nat)
    requires Fair(run)
    ensures j >= i && ByFetcher(run.steps(j))
  {
    assert FetcherActs(run, i);
    j :| j >= i && ByFetcher(run.steps(j));
  }

  // ---------------------------------------------------------------- from an executor's hands

  /** An executor that holds a job holds it until it acts. */
  lemma {:induction false} HoldsUntil(run: Run, i: nat, j: nat, e: nat, job: Job) returns (k: nat)
    requires Fair(run) && i <= j && e < |run.states(i).hands| && run.states(i).hands[e] == Some(job)
    requires ByExecutor(run.steps(j), e) || !CanAct(run.states(j), e)
    ensures k >= i && ByExecutor(run.steps(k), e)
    ensures e < |run.states(k).hands| && run.states(k).hands[e] == Some(job)
    decreases j - i
  {
    if ByExecutor(run.steps(i), e) {
      k := i;
    } else {
      StepAt(run, i);
      hide Fair;
      k := HoldsUntil(run, i + 1, j, e, job);
    }
  }

  predicate Out(s: State, id: Id) { Count(s.saved, id) + Count(s.dropped, id) > 0 }

  /** The job comes out, or back into the retry queue with one attempt fewer left. */
  lemma FromHand(run: Run, i: nat, e: nat, job: Job) returns (k: nat)
    requires Fair(run) && e < |run.states(i).hands| && run.states(i).hands[e] == Some(job)
    ensures k > i
    ensures Out(run.states(k), job.id)
         || exists again: Job :: again in run.states(k).retryQueue && again.id == job.id && LeftOf(again) < LeftOf(job)
  {
    hide Fair, Invariant, AttemptsBounded, Enabled, Next, ByExecutor, CanAct;
    var j := ExecutorTurn(run, i, e);
    k := HoldsUntil(run, i, j, e, job);
    Always(run, k);
    StepAt(run, k);
    HandDone(run.states(k), run.steps(k), e, job);
    k := k + 1;
  }

  lemma HandDone(s: State, step: Step, e: nat, job: Job)
    requires AttemptsBounded(s) && Enabled(s, step) && ByExecutor(step, e)
    requires e < |s.hands| && s.hands[e] == Some(job)
    ensures var t := Next(s, step);
            Out(t, job.id)
            || exists again: Job :: again in t.retryQueue && again.id == job.id && LeftOf(again) < LeftOf(job)
  {
    LiveInHand(s, e);
    hide AttemptsBounded;
    if step.Save? {
      hide Count;
      LastCounts(s.saved, job.(attempts := job.attempts + 1));
    } else {
      HandFailed(s, e, job);
    }
  }

  lemma HandFailed(s: State, e: nat, job: Job)
    requires e < |s.hands| && s.hands[e] == Some(job) && job.retries <= 3
    ensures var t := Next(s, Fail(e));
            Out(t, job.id)
            || exists again: Job :: again in t.retryQueue && again.id == job.id && LeftOf(again) < LeftOf(job)
  {
    hide Count;
    var failed := job.(retries := job.retries + 1, attempts := job.attempts + 1);
    if job.retries < 3 {
      assert Next(s, Fail(e)).retryQueue[|s.retryQueue|] == failed;
    } else {
      LastCounts(s.dropped, failed);
    }
  }

  lemma LastCounts(jobs: seq<Job>, job: Job)
    ensures Count(jobs + [job], job.id) > 0
  {
    CountAppend(jobs, [job], job.id);
  }

  // ---------------------------------------------------------------- from the work queue

  /** Until the next job is taken the work queue only grows; an executor that acts without taking one has its hands
      free afterwards. */
  lemma {:induction false} NextTake(run: Run, i: nat, j: nat, e: nat) returns (k: nat)
    requires Fair(run) && i <= j && e < |run.states(i).hands| && run.states(i).jobQueue != []
    requires ByExecutor(run.steps(j), e) || !CanAct(run.states(j), e)
    ensures k >= i && (run.steps(k).Take? || ByExecutor(run.steps(k), e))
    ensures run.states(i).jobQueue <= run.states(k).jobQueue && e < |run.states(k).hands|
    ensures run.states(i).hands[e].None? ==> run.states(k).hands[e].None?
    decreases j - i
  {
    if run.steps(i).Take? || ByExecutor(run.steps(i), e) {
      k := i;
    } else {
      StepAt(run, i);
      hide Fair;
      k := NextTake(run, i + 1, j, e);
    }
  }

  lemma SomeTake(run: Run, i: nat) returns (k: nat)
    requires Fair(run) && |run.states(i).hands| > 0 && run.states(i).jobQueue != []
    ensures k >= i && run.steps(k).Take? && run.states(i).jobQueue <= run.states(k).jobQueue
  {
    hide Fair;
    var j := ExecutorTurn(run, i, 0);
    k := NextTake(run, i, j, 0);
    StepAt(run, k);
    if !run.steps(k).Take? {
      j := ExecutorTurn(run, k + 1, 0);
      k := NextTake(run, k + 1, j, 0);
      StepAt(run, k);
    }
  }

  /** A job in the work queue comes into the hands of an executor. */
  lemma {:induction false} FromQueue(run: Run, i: nat, p: nat, job: Job) returns (k: nat, e: nat)
    requires Fair(run) && |run.states(i).hands| > 0
    requires p < |run.states(i).jobQueue| && run.states(i).jobQueue[p] == job
    ensures k > i && e < |run.states(k).hands| && run.states(k).hands[e] == Some(job)
    decreases p
  {
    k := SomeTake(run, i);
    hide Fair, Invariant, AttemptsBounded;
    StepAt(run, k);
    Always(run, i);
    Always(run, k);
    e := run.steps(k).e;
    k := k + 1;
    if p > 0 {
      k, e := FromQueue(run, k, p - 1, job);
    }
  }

  // ---------------------------------------------------------------- through the fetcher

  lemma OtherStep(s: State, step: Step)
    requires AttemptsBounded(s) && Enabled(s, step) && !ByFetcher(step)
    ensures Next(s, step).fetcher == s.fetcher && s.retryQueue <= Next(s, step).retryQueue
    ensures Remaining(Next(s, step)) + |Next(s, step).retryQueue| <= Remaining(s) + |s.retryQueue|
  {
    StepRemaining(s, step);
    hide AttemptsBounded, Remaining;
  }

  /** Until its next action the fetcher stays as it is, and the retry queue only grows. */
  lemma {:induction false} RestsUntil(run: Run, i: nat, j: nat) returns (k: nat)
    requires Fair(run) && i <= j && ByFetcher(run.steps(j))
    ensures k >= i && ByFetcher(run.steps(k)) && run.states(k).fetcher == run.states(i).fetcher
    ensures run.states(i).retryQueue <= run.states(k).retryQueue
    ensures Remaining(run.states(k)) + |run.states(k).retryQueue|
         <= Remaining(run.states(i)) + |run.states(i).retryQueue|
    decreases j - i
  {
    if ByFetcher(run.steps(i)) {
      k := i;
    } else {
      hide Fair, Invariant, AttemptsBounded, Remaining, Enabled, Next;
      StepAt(run, i);
      Always(run, i);
      OtherStep(run.states(i), run.steps(i));
      k := RestsUntil(run, i + 1, j);
    }
  }

  lemma NextAction(run: Run, i: nat) returns (k: nat)
    requires Fair(run)
    ensures k >= i && ByFetcher(run.steps(k)) && run.states(k).fetcher == run.states(i).fetcher
    ensures run.states(i).retryQueue <= run.states(k).retryQueue
    ensures Remaining(run.states(k)) + |run.states(k).retryQueue|
         <= Remaining(run.states(i)) + |run.states(i).retryQueue|
    ensures Follows(run, k) && run.steps(k) != StopFetcher
  {
    hide Fair, Remaining;
    var j := FetcherTurn(run, i);
    k := RestsUntil(run, i, j);
    StepAt(run, k);
    if run.steps(k) == StopFetcher {
      j := FetcherTurn(run, k + 1);
      var rest := RestsUntil(run, k + 1, j);
      StepAt(run, rest);
    }
  }

  /** A job that the fetcher hands over comes into the work queue. */
  lemma {:induction false} FromFeeding(run: Run, i: nat, p: nat, job: Job) returns (k: nat)
    requires Fair(run) && run.states(i).fetcher.Feeding?
    requires p < |run.states(i).fetcher.todos| && run.states(i).fetcher.todos[p] == job
    ensures k > i && job in run.states(k).jobQueue
    decreases p
  {
    k := NextAction(run, i);
    hide Fair;
    k := k + 1;
    if p > 0 {
      k := FromFeeding(run, k, p - 1, job);
    } else {
      assert run.states(k).jobQueue[|run.states(k).jobQueue| - 1] == job;
    }
  }

  /** A drained job is handed over: executors cannot keep the retry queue filled for ever. */
  lemma {:induction false} FromDrained(run: Run, i: nat, job: Job) returns (k: nat)
    requires Fair(run) && run.states(i).fetcher.Draining? && job in run.states(i).fetcher.drained
    ensures k > i && run.states(k).fetcher.Feeding? && job in run.states(k).fetcher.todos
    decreases Remaining(run.states(i)) + |run.states(i).retryQueue|
  {
    hide Fair, Remaining, Invariant, AttemptsBounded;
    k := NextAction(run, i);
    Always(run, k);
    StepRemaining(run.states(k), run.steps(k));
    if run.steps(k) == Commit {
      k := k + 1;
    } else {
      k := FromDrained(run, k + 1, job);
    }
  }

  predicate Drained(s: State, job: Job) { s.fetcher.Draining? && job in s.fetcher.drained }

  /** A job leaves the retry queue only for the hands of the fetcher. */
  lemma {:induction false} RetriedUntil(run: Run, i: nat, j: nat, job: Job) returns (k: nat)
    requires Fair(run) && i <= j && job in run.states(i).retryQueue
    ensures i <= k <= j && (Drained(run.states(k), job) || (k == j && job in run.states(j).retryQueue))
    decreases j - i
  {
    if i == j {
      k := i;
    } else {
      assert Follows(run, i);
      hide Fair;
      RetryKept(run.states(i), run.steps(i), job);
      k := i + 1;
      if !Drained(run.states(k), job) {
        k := RetriedUntil(run, k, j, job);
      }
    }
  }

  lemma RetryKept(s: State, step: Step, job: Job)
    requires Enabled(s, step) && job in s.retryQueue
    ensures job in Next(s, step).retryQueue || Drained(Next(s, step), job)
  {
    if step == DrainOne {
      var drained := s.fetcher.drained + [s.retryQueue[0]];
      assert drained[|drained| - 1] == s.retryQueue[0];
      assert s.retryQueue == [s.retryQueue[0]] + s.retryQueue[1..];
    }
  }

  /** How far the fetcher is from draining the retry queue. */
  function Distance(f: Fetcher): nat {
    match f
    case Feeding(todos) => 4 + |todos|
    case Waiting => 3
    case ReadingSucceeded(_) => 2
    case ReadingFailed(_, _) => 1
    case _ => 0
  }

  lemma NextAnswer(run: Run, i: nat) returns (j: nat)
    requires Fair(run) && run.steps(i) == ThrowFetch
    ensures j >= i && run.steps(j).ReadFailed?
  {
    assert Answered(run, i);
    j :| j >= i && run.steps(j).ReadFailed?;
  }

  /** A job in the retry queue is drained. */
  lemma {:induction false} FromRetry(run: Run, i: nat, p: nat, job: Job) returns (k: nat)
    requires Fair(run) && p < |run.states(i).retryQueue| && run.states(i).retryQueue[p] == job
    ensures k > i && Drained(run.states(k), job)
    decreases Distance(run.states(i).fetcher), p
  {
    hide Fair, Remaining;
    k := NextAction(run, i);
    var s, step := run.states(k), run.steps(k);
    k := k + 1;
    var t := run.states(k);
    if step == ThrowFetch {
      var j := NextAnswer(run, k - 1);
      k := RetriedUntil(run, k, j, job);
      if !Drained(run.states(k), job) {
        StepAt(run, j);
        var q: nat :| q < |run.states(j).retryQueue| && run.states(j).retryQueue[q] == job;
        k := FromRetry(run, j + 1, q, job);
      }
    } else if step != DrainOne {
      k := FromRetry(run, k, p, job);
    } else if p > 0 {
      k := FromRetry(run, k, p - 1, job);
    } else {
      assert t.fetcher.drained[|s.fetcher.drained|] == job;
    }
  }

  // ---------------------------------------------------------------- every application gets out

  /** From the fetcher's hands to an executor's. */
  lemma FromTodos(run: Run, i: nat, job: Job) returns (k: nat, e: nat)
    requires Fair(run) && |run.states(0).hands| > 0
    requires run.states(i).fetcher.Feeding? && job in run.states(i).fetcher.todos
    ensures k > i && e < |run.states(k).hands| && run.states(k).hands[e] == Some(job)
  {
    hide Fair;
    var p: nat :| p < |run.states(i).fetcher.todos| && run.states(i).fetcher.todos[p] == job;
    k := FromFeeding(run, i, p, job);
    var q: nat :| q < |run.states(k).jobQueue| && run.states(k).jobQueue[q] == job;
    Always(run, k);
    k, e := FromQueue(run, k, q, job);
  }

  lemma {:induction false} HandGetsOut(run: Run, i: nat, e: nat, job: Job) returns (k: nat)
    requires Fair(run) && |run.states(0).hands| > 0
    requires e < |run.states(i).hands| && run.states(i).hands[e] == Some(job)
    ensures k >= i && Out(run.states(k), job.id)
    decreases LeftOf(job)
  {
    hide Fair;
    k := FromHand(run, i, e, job);
    if !Out(run.states(k), job.id) {
      var again :| again in run.states(k).retryQueue && again.id == job.id && LeftOf(again) < LeftOf(job);
      var p: nat :| p < |run.states(k).retryQueue| && run.states(k).retryQueue[p] == again;
      k := FromRetry(run, k, p, again);
      k := FromDrained(run, k, again);
      var e';
      k, e' := FromTodos(run, k, again);
      k := HandGetsOut(run, k, e', again);
    }
  }

  lemma {:induction false} Counted(jobs: seq<Job>, id: Id) returns (p: nat)
    requires Count(jobs, id) > 0
    ensures p < |jobs| && jobs[p].id == id
  {
    if jobs[0].id == id {
      p := 0;
    } else {
      p := Counted(jobs[1..], id);
      p := p + 1;
    }
  }

  lemma {:induction false} CountedHand(hands: seq<Option<Job>>, id: Id) returns (e: nat)
    requires CountHands(hands, id) > 0
    ensures e < |hands| && hands[e].Some? && hands[e].value.id == id
  {
    if Has(hands[0], id) > 0 {
      e := 0;
    } else {
      e := CountedHand(hands[1..], id);
      e := e + 1;
    }
  }

  /** A job with this id comes into the hands of an executor, unless it is out. */
  lemma Reaches(run: Run, i: nat, id: Id) returns (k: nat, e: nat)
    requires Fair(run) && |run.states(0).hands| > 0 && Due(run.states(i), id) && !Out(run.states(i), id)
    ensures k >= i && e < |run.states(k).hands| && run.states(k).hands[e].Some?
    ensures run.states(k).hands[e].value.id == id
  {
    Always(run, i);
    var s := run.states(i);
    assert Places(s, id) == 1;
    hide Fair, AttemptsBounded, Invariant, Due;
    if CountHands(s.hands, id) > 0 {
      e := CountedHand(s.hands, id);
      k := i;
    } else if Count(s.jobQueue, id) > 0 {
      var p := Counted(s.jobQueue, id);
      k, e := FromQueue(run, i, p, s.jobQueue[p]);
    } else if Count(s.retryQueue, id) > 0 {
      var p := Counted(s.retryQueue, id);
      var job := s.retryQueue[p];
      k := FromRetry(run, i, p, job);
      k := FromDrained(run, k, job);
      k, e := FromTodos(run, k, job);
    } else {
      var p := Counted(Carried(s.fetcher), id);
      var job := Carried(s.fetcher)[p];
      k := i;
      if s.fetcher.Draining? { k := FromDrained(run, i, job); }
      k, e := FromTodos(run, k, job);
    }
  }

  /** With an executor, in every fair run: each application that is due at any time is saved or dropped, once, at some
      later time. New applications may be found all the while. */
  lemma FairRunsFinish(run: Run, i: nat, id: Id) returns (k: nat)
    requires Fair(run) && |run.states(0).hands| > 0 && Due(run.states(i), id)
    ensures k >= i && Count(run.states(k).saved, id) + Count(run.states(k).dropped, id) == 1
  {
    if Out(run.states(i), id) {
      k := i;
    } else {
      var e;
      k, e := Reaches(run, i, id);
      k := HandGetsOut(run, k, e, run.states(k).hands[e].value);
    }
    Always(run, k);
    assert Places(run.states(k), id) <= 1;
  }

  // ---------------------------------------------------------------- when nothing more is found

  /** From some time on, no completed fetch finds jobs. */
  ghost predicate NoMoreFound(run: Run, i: nat) {
    forall j: nat :: j >= i && run.steps(j) == Commit && run.states(j).fetcher.Draining? ==>
                       run.states(j).fetcher.found == []
  }

  lemma {:induction false} OutStays(run: Run, i: nat, j: nat, id: Id)
    requires Fair(run) && i <= j && Out(run.states(i), id)
    ensures Out(run.states(j), id)
    decreases j
  {
    if i < j {
      OutStays(run, i, j - 1, id);
      StepAt(run, j - 1);
      hide Fair;
      OutKept(run.states(j - 1), run.steps(j - 1), id);
    }
  }

  lemma OutKept(s: State, step: Step, id: Id)
    requires Enabled(s, step) && Out(s, id)
    ensures Out(Next(s, step), id)
  {
    if step.Save? || step.Fail? {
      var job := s.hands[step.e].value;
      CountAppend(s.saved, [job.(attempts := job.attempts + 1)], id);
      CountAppend(s.dropped, [job.(retries := job.retries + 1, attempts := job.attempts + 1)], id);
    }
  }

  lemma {:induction false} DueBefore(run: Run, i: nat, j: nat, id: Id)
    requires Fair(run) && i <= j && NoMoreFound(run, i)
    ensures Due(run.states(j), id) <==> Due(run.states(i), id)
    decreases j
  {
    if i < j {
      DueBefore(run, i, j - 1, id);
      StepAt(run, j - 1);
      Always(run, j - 1);
      hide Fair, Due, AttemptsBounded, OneJobEach, DatabaseGrows;
      var s, step := run.states(j - 1), run.steps(j - 1);
      if step == Commit {
        CommitDue(s, id);
      } else {
        StepDue(s, step, id);
      }
    }
  }

  lemma {:induction false} AllOut(run: Run, i: nat, ids: set<Id>) returns (k: nat)
    requires Fair(run) && |run.states(0).hands| > 0 && forall id :: id in ids ==> Due(run.states(i), id)
    ensures k >= i && forall id :: id in ids ==> Out(run.states(k), id)
    decreases ids
  {
    hide Fair, Due, Out;
    k := i;
    if ids != {} {
      var id :| id in ids;
      var j := AllOut(run, i, ids - {id});
      k := FinishOut(run, i, id);
      var most := if j < k then k else j;
      forall other | other in ids ensures Out(run.states(most), other) {
        OutStays(run, if other == id then k else j, most, other);
      }
      k := most;
    }
  }

  lemma FinishOut(run: Run, i: nat, id: Id) returns (k: nat)
    requires Fair(run) && |run.states(0).hands| > 0 && Due(run.states(i), id)
    ensures k >= i && Out(run.states(k), id)
  {
    k := FairRunsFinish(run, i, id);
  }

  /** Where nothing more is found, a time comes when no job is under way. */
  lemma FairRunsDrain(run: Run, i: nat) returns (k: nat)
    requires Fair(run) && |run.states(0).hands| > 0 && NoMoreFound(run, i)
    ensures k >= i && Remaining(run.states(k)) == 0
  {
    var s := run.states(i);
    var due := set id | id in s.seen && Due(s, id);
    k := AllOut(run, i, due);
    var t := run.states(k);
    Always(run, k);
    forall id
      ensures Count(Carried(t.fetcher), id) == Count(t.retryQueue, id) == Count(t.jobQueue, id)
                == CountHands(t.hands, id) == 0
    {
      DueBefore(run, i, k, id);
      assert Places(t, id) == if Due(t, id) then 1 else 0;
      assert Due(s, id) ==> id in due;
    }
    hide Fair, Invariant, AttemptsBounded, NoMoreFound, Due;
    NoneLeft(t);
  }

  lemma NoneLeft(s: State)
    requires AttemptsBounded(s)
    requires forall id :: Count(Carried(s.fetcher), id) == Count(s.retryQueue, id) == Count(s.jobQueue, id)
                            == CountHands(s.hands, id) == 0
    ensures Remaining(s) == 0
  {
    hide AttemptsBounded;
    forall jobs: seq<Job> | jobs != [] ensures Count(jobs, jobs[0].id) > 0 {}
    forall e | 0 <= e < |s.hands| ensures s.hands[e].None? {
      if s.hands[e].Some? {
        CountHandsUpdate(s.hands, e, None, s.hands[e].value.id);
      }
    }
    AnalysisLiveness.NothingUnderWay(s);
  }

  // ---------------------------------------------------------------- such runs exist

  function IdleState(i: nat): State {
    var fetcher := match i % 5
      case 0 => Waiting
      case 1 => ReadingSucceeded(140000)
      case 2 => ReadingFailed(140000, [])
      case 3 => Draining(140000, [], [])
      case _ => Feeding([]);
    var last := if i < 4 then 0 else 140000;
    State(200000, map[], {}, last, fetcher, [], [], [None], [], [], {}, last)
  }

  function IdleStep(i: nat): Step {
    match i % 5
    case 0 => StartFetch
    case 1 => ReadSucceeded([])
    case 2 => Step.ReadFailed([])
    case 3 => Commit
    case _ => EndFeed
  }

  /** The daemon with one executor and no application is fair: the executor waits, and the fetcher goes round. */
  lemma FairRunExists() returns (run: Run)
    ensures Fair(run) && |run.states(0).hands| == 1
  {
    run := Run((i: nat) => IdleState(i), (i: nat) => IdleStep(i));
    forall i: nat ensures Follows(run, i) { IdleFollows(i); }
    forall i: nat ensures FetcherActs(run, i) { assert ByFetcher(run.steps(i)); }
    forall i: nat, e: nat ensures ExecutorActs(run, i, e) { assert !CanAct(run.states(i), e); }
    assert forall i: nat :: run.steps(i) == IdleStep(i) != ThrowFetch;
  }

  lemma IdleFollows(i: nat)
    ensures Enabled(IdleState(i), IdleStep(i)) && IdleState(i + 1) == Next(IdleState(i), IdleStep(i))
  {
    assert (i + 1) % 5 == if i % 5 == 4 then 0 else i % 5 + 1;
    assert i >= 4 || i % 5 == i;
    var none: seq<Job> := [];
    assert none + none == none;
  }
}
