/** When the jobs of Dr. Elephant's daemon get out: what it can still finish on its own, with the clock standing and
    no new reports, and where jobs stay for ever. */
module AnalysisLiveness {
  import opened Basics
  import opened AnalysisProtocol

  /** Steps of the daemon, not of the clock or the resource manager. */
  predicate Daemon(step: Step) { !step.Tick? && !step.Report? }

  /** Which attempts succeed is decided by `passes`, for every attempt of every job. */
  predicate Obeys(s: State, step: Step, passes: Job -> bool) {
    match step
    case Save(e) => e < |s.hands| && s.hands[e].Some? && passes(s.hands[e].value)
    case Fail(e) => e < |s.hands| && s.hands[e].Some? && !passes(s.hands[e].value)
    case _ => true
  }

  /** The daemon can go from s to t in these steps. */
  ghost predicate Leads(s: State, steps: seq<Step>, t: State, passes: Job -> bool)
    decreases |steps|
  {
    if steps == [] then t == s
    else
      Daemon(steps[0]) && Enabled(s, steps[0]) && Obeys(s, steps[0], passes)
      && Leads(Next(s, steps[0]), steps[1..], t, passes)
  }

  lemma {:induction false} LeadsOn(s: State, a: seq<Step>, t: State, b: seq<Step>, u: State, passes: Job -> bool)
    requires Leads(s, a, t, passes) && Leads(t, b, u, passes)
    ensures Leads(s, a + b, u, passes)
    decreases |a|
  {
    hide Enabled, Next, Obeys;
    if a == [] {
      assert a + b == b;
    } else {
      LeadsOn(Next(s, a[0]), a[1..], t, b, u, passes);
      assert (a + b)[1..] == a[1..] + b;
    }
  }

  lemma Leads1(s: State, step: Step, passes: Job -> bool)
    requires Daemon(step) && Enabled(s, step) && Obeys(s, step, passes)
    ensures Leads(s, [step], Next(s, step), passes)
  {
    hide Enabled, Next, Obeys;
    assert [step][1..] == [];
  }

  /** One step, and then some. */
  lemma FirstStep(s: State, step: Step, b: seq<Step>, u: State, passes: Job -> bool)
    requires Daemon(step) && Enabled(s, step) && Obeys(s, step, passes) && Leads(Next(s, step), b, u, passes)
    ensures Leads(s, [step] + b, u, passes)
  {
    hide Enabled, Next, Obeys;
    Leads1(s, step, passes);
    LeadsOn(s, [step], Next(s, step), b, u, passes);
  }

  lemma {:induction false} LeadsKeeps(s: State, steps: seq<Step>, t: State, passes: Job -> bool)
    requires Leads(s, steps, t, passes) && AttemptsBounded(s)
    ensures AttemptsBounded(t) && t.now == s.now && t.seen == s.seen && |t.hands| == |s.hands|
    ensures After(s, steps) == Some(t) && forall i :: 0 <= i < |steps| ==> Daemon(steps[i])
    decreases |steps|
  {
    hide AttemptsBounded, Enabled, Next, Obeys, Daemon;
    if steps != [] {
      StepAttempts(s, steps[0]);
      DaemonKeeps(s, steps[0]);
      LeadsKeeps(Next(s, steps[0]), steps[1..], t, passes);
    }
  }

  lemma DaemonKeeps(s: State, step: Step)
    requires Daemon(step) && Enabled(s, step)
    ensures var t := Next(s, step); t.now == s.now && t.seen == s.seen && |t.hands| == |s.hands|
  {
    hide IsAnswer, ReadApps;
  }

  // ---------------------------------------------------------------- the fetcher comes to rest

  function Rank(f: Fetcher): nat {
    match f
    case Draining(_, _, _) => 3
    case Feeding(_) => 2
    case Waiting => 0
    case _ => 1
  }

  /** The fetcher finishes or gives up what it is doing. A fetch that was draining hands over the retry queue. */
  lemma {:induction false} Rest(s: State, passes: Job -> bool) returns (steps: seq<Step>, t: State)
    requires AttemptsBounded(s) && !s.fetcher.Stopped?
    ensures Leads(s, steps, t, passes) && t.fetcher.Waiting?
    ensures t.lastTime == if s.fetcher.Draining? then s.fetcher.current else s.lastTime
    ensures t.retryQueue == if s.fetcher.Draining? then [] else s.retryQueue
    ensures Remaining(t) == Remaining(s) + if s.fetcher.Draining? then 4 * |s.fetcher.found| else 0
    decreases Rank(s.fetcher), |s.retryQueue|, |Carried(s.fetcher)|
  {
    if s.fetcher.Waiting? {
      return [], s;
    }
    var step :=
      if s.fetcher.Draining? then (if s.retryQueue != [] then DrainOne else Commit)
      else if s.fetcher.Feeding? then (if s.fetcher.todos != [] then FeedOne else EndFeed)
      else ThrowFetch;
    StepRemaining(s, step);
    StepAttempts(s, step);
    hide AttemptsBounded, Remaining;
    var more;
    more, t := Rest(Next(s, step), passes);
    FirstStep(s, step, more, t, passes);
    steps := [step] + more;
  }

  /** The resource manager can always answer. */
  lemma {:induction false} AnswerExists(ids: set<Id>, seen: map<Id, App>, status: Status, begin: int, end: int)
      returns (answer: seq<Id>)
    requires ids <= seen.Keys
    ensures forall i, j :: 0 <= i < j < |answer| ==> answer[i] != answer[j]
    ensures forall id :: id in answer <==> id in ids && seen[id].status == status && begin <= seen[id].finish <= end
  {
    if ids == {} {
      answer := [];
    } else {
      var id :| id in ids;
      answer := AnswerExists(ids - {id}, seen, status, begin, end);
      if seen[id].status == status && begin <= seen[id].finish <= end {
        answer := answer + [id];
      }
    }
  }

  lemma AnswerTo(s: State, status: Status, begin: int, end: int) returns (answer: seq<Id>)
    ensures IsAnswer(answer, s.seen, status, begin, end)
    ensures begin > end ==> answer == []
  {
    answer := AnswerExists(s.seen.Keys, s.seen, status, begin, end);
    if answer != [] { assert answer[0] in answer; }
  }

  /** A complete round of the fetch loop hands over the retry queue; if the window is empty it brings nothing new. */
  lemma Round(s: State, passes: Job -> bool) returns (steps: seq<Step>, t: State)
    requires AttemptsBounded(s) && s.fetcher.Waiting?
    ensures Leads(s, steps, t, passes) && t.fetcher.Waiting?
    ensures t.lastTime == s.now - 60000 && t.retryQueue == []
    ensures s.lastTime == s.now - 60000 ==> Remaining(t) == Remaining(s)
  {
    var succeeded := AnswerTo(s, SUCCEEDED, s.lastTime + 1, s.now - 60000);
    var failed := AnswerTo(s, FAILED, s.lastTime + 1, s.now - 60000);
    var a, r := Reading(s, succeeded, failed, passes);
    LeadsKeeps(s, a, r, passes);
    hide AttemptsBounded, Remaining, IsAnswer, Leads;
    var b;
    b, t := Rest(r, passes);
    LeadsOn(s, a, r, b, t, passes);
    steps := a + b;
  }

  /** The two queries of a fetch. */
  lemma Reading(s: State, succeeded: seq<Id>, failed: seq<Id>, passes: Job -> bool) returns (steps: seq<Step>, t: State)
    requires s.fetcher.Waiting?
    requires IsAnswer(succeeded, s.seen, SUCCEEDED, s.lastTime + 1, s.now - 60000)
    requires IsAnswer(failed, s.seen, FAILED, s.lastTime + 1, s.now - 60000)
    ensures Leads(s, steps, t, passes) && t.retryQueue == s.retryQueue
    ensures t.fetcher == Draining(s.now - 60000, ReadApps(succeeded, s.seen, s.lastTime, s.db)
                                                       + ReadApps(failed, s.seen, s.lastTime, s.db), [])
    ensures Remaining(t) == Remaining(s)
  {
    hide IsAnswer;
    var s1 := Next(s, StartFetch);
    var s2 := Next(s1, ReadSucceeded(succeeded));
    t := Next(s2, ReadFailed(failed));
    Leads1(s2, ReadFailed(failed), passes);
    FirstStep(s1, ReadSucceeded(succeeded), [ReadFailed(failed)], t, passes);
    steps := [StartFetch] + ([ReadSucceeded(succeeded)] + [ReadFailed(failed)]);
    FirstStep(s, StartFetch, [ReadSucceeded(succeeded)] + [ReadFailed(failed)], t, passes);
  }

  // ---------------------------------------------------------------- an executor finishes a job

  lemma {:induction false} LeftZero(jobs: seq<Job>)
    requires AllLive(jobs)
    ensures Left(jobs) == 0 <==> jobs == []
  {
    if jobs != [] { assert jobs[0] in jobs; }
  }

  lemma {:induction false} HandsZero(hands: seq<Option<Job>>) returns (e: nat)
    requires forall i :: 0 <= i < |hands| && hands[i].Some? ==> hands[i].value.retries <= 3
    ensures LeftInHands(hands) > 0 ==> e < |hands| && hands[e].Some?
    ensures LeftInHands(hands) == 0 ==> forall i :: 0 <= i < |hands| ==> hands[i].None?
  {
    e := 0;
    if hands != [] && hands[0].None? {
      e := HandsZero(hands[1..]);
      assert forall i :: 0 < i < |hands| ==> hands[i] == hands[1..][i - 1];
      e := e + 1;
    }
  }

  lemma InHand(s: State)
    requires AttemptsBounded(s)
    ensures forall i :: 0 <= i < |s.hands| && s.hands[i].Some? ==> s.hands[i].value.retries <= 3
  {
    forall i | 0 <= i < |s.hands| && s.hands[i].Some? ensures s.hands[i].value.retries <= 3 {
      assert s.hands[i].value in [s.hands[i].value];
    }
  }

  /** Nothing remains exactly if no job is in a queue, in the fetcher's hands or in an executor's. */
  lemma NothingUnderWay(s: State)
    requires AttemptsBounded(s)
    ensures Remaining(s) == 0 <==>
            && Carried(s.fetcher) == [] && s.retryQueue == [] && s.jobQueue == []
            && forall e :: 0 <= e < |s.hands| ==> s.hands[e].None?
  {
    LeftZero(Carried(s.fetcher));
    LeftZero(s.retryQueue);
    LeftZero(s.jobQueue);
    InHand(s);
    var e := HandsZero(s.hands);
    if forall e :: 0 <= e < |s.hands| ==> s.hands[e].None? { NoneInHands(s.hands); }
  }

  /** What is not in the retry queue or in the fetcher's hands, an executor can take and finish. */
  lemma Work(s: State, passes: Job -> bool) returns (steps: seq<Step>, t: State)
    requires AttemptsBounded(s) && Carried(s.fetcher) == [] && s.retryQueue == []
    requires Remaining(s) > 0 && |s.hands| > 0
    ensures Leads(s, steps, t, passes) && Remaining(t) < Remaining(s)
    ensures t.fetcher == s.fetcher && t.lastTime == s.lastTime
    ensures (forall job :: passes(job)) ==> t.retryQueue == []
  {
    InHand(s);
    var e := HandsZero(s.hands);
    if LeftInHands(s.hands) > 0 {
      steps, t := Finish(s, e, passes);
    } else {
      var s1 := Next(s, Take(0));
      StepAttempts(s, Take(0));
      StepRemaining(s, Take(0));
      steps, t := Finish(s1, 0, passes);
      FirstStep(s, Take(0), steps, t, passes);
      steps := [Take(0)] + steps;
    }
  }

  lemma Finish(s: State, e: nat, passes: Job -> bool) returns (steps: seq<Step>, t: State)
    requires AttemptsBounded(s) && e < |s.hands| && s.hands[e].Some?
    ensures Leads(s, steps, t, passes) && Remaining(t) < Remaining(s)
    ensures t.fetcher == s.fetcher && t.lastTime == s.lastTime
    ensures passes(s.hands[e].value) ==> t.retryQueue == s.retryQueue
  {
    var step := if passes(s.hands[e].value) then Save(e) else Fail(e);
    StepRemaining(s, step);
    Leads1(s, step, passes);
    steps, t := [step], Next(s, step);
  }

  // ---------------------------------------------------------------- everything gets out

  /** As long as the fetch loop goes on and there is an executor, all jobs get out, whichever attempts fail. */
  lemma {:induction false} DrainsFromRest(s: State, passes: Job -> bool) returns (steps: seq<Step>, t: State)
    requires AttemptsBounded(s) && s.fetcher.Waiting? && |s.hands| > 0
    ensures Leads(s, steps, t, passes) && Remaining(t) == 0
    decreases if s.lastTime == s.now - 60000 then 0 else 1, Remaining(s)
  {
    hide AttemptsBounded, Remaining, Leads;
    if Remaining(s) == 0 && s.lastTime == s.now - 60000 {
      NoSteps(s, passes);
      return [], s;
    }
    var a, r := Round(s, passes);
    LeadsKeeps(s, a, r, passes);
    var b, u;
    if s.lastTime != s.now - 60000 {
      b, u := [], r;
      NoSteps(r, passes);
    } else {
      b, u := Work(r, passes);
      LeadsKeeps(r, b, u, passes);
    }
    var c;
    c, t := DrainsFromRest(u, passes);
    LeadsOn(s, a, r, b, u, passes);
    LeadsOn(s, a + b, u, c, t, passes);
    steps := a + b + c;
  }

  lemma NoSteps(s: State, passes: Job -> bool)
    ensures Leads(s, [], s, passes)
  {
  }

  lemma DrainsWhateverFails(s: State, passes: Job -> bool) returns (steps: seq<Step>, t: State)
    requires AttemptsBounded(s) && !s.fetcher.Stopped? && |s.hands| > 0
    ensures Leads(s, steps, t, passes) && Remaining(t) == 0
  {
    hide AttemptsBounded, Remaining, Leads;
    var a, r := Rest(s, passes);
    LeadsKeeps(s, a, r, passes);
    var b;
    b, t := DrainsFromRest(r, passes);
    LeadsOn(s, a, r, b, t, passes);
    steps := a + b;
  }

  lemma {:induction false} LeadsInvariant(s: State, steps: seq<Step>, t: State, passes: Job -> bool)
    requires Leads(s, steps, t, passes) && Invariant(s)
    ensures Invariant(t)
    decreases |steps|
  {
    if steps != [] {
      StepInvariant(s, steps[0]);
      hide Invariant, Enabled, Next, Obeys;
      LeadsInvariant(Next(s, steps[0]), steps[1..], t, passes);
    }
  }

  /** From every state of every run in which the fetch loop goes on and there is an executor, whichever attempts will
      fail: the daemon can come to where each application that is due has been saved or dropped, once. */
  lemma EachGetsOut(states: seq<State>, run: seq<Step>, i: nat, passes: Job -> bool)
      returns (steps: seq<Step>, t: State)
    requires IsRun(states, run) && i < |states| && !states[i].fetcher.Stopped? && |states[i].hands| > 0
    ensures Leads(states[i], steps, t, passes) && Remaining(t) == 0
    ensures forall id :: Count(t.saved, id) + Count(t.dropped, id) == if Due(t, id) then 1 else 0
  {
    AtMostFourAttempts(states, run, i);
    RunInvariant(states, run, i);
    hide IsRun, Leads, Remaining, AttemptsBounded;
    steps, t := DrainsWhateverFails(states[i], passes);
    LeadsInvariant(states[i], steps, t, passes);
    LeadsKeeps(states[i], steps, t, passes);
    NothingUnderWay(t);
    forall id ensures Count(t.saved, id) + Count(t.dropped, id) == if Due(t, id) then 1 else 0 {
      CountNone(t.hands, id);
      assert Places(t, id) == if Due(t, id) then 1 else 0;
    }
  }

  /** Where the fourth attempts and no others succeed, jobs are saved at that attempt, and none is dropped. */
  ghost predicate OutAtFourth(s: State) {
    (forall job :: job in s.saved ==> job.attempts == 4) && s.dropped == []
  }

  lemma {:induction false} SavedAtFourth(s: State, steps: seq<Step>, t: State)
    requires Leads(s, steps, t, (job: Job) => job.attempts == 3) && AttemptsBounded(s) && OutAtFourth(s)
    ensures OutAtFourth(t)
    decreases |steps|
  {
    if steps != [] {
      StepAttempts(s, steps[0]);
      FourthStep(s, steps[0]);
      hide AttemptsBounded, OutAtFourth, Enabled, Next, Obeys, Daemon;
      SavedAtFourth(Next(s, steps[0]), steps[1..], t);
    }
  }

  lemma FourthStep(s: State, step: Step)
    requires Enabled(s, step) && Obeys(s, step, (job: Job) => job.attempts == 3) && AttemptsBounded(s) && OutAtFourth(s)
    ensures OutAtFourth(Next(s, step))
  {
    if Completes(step) { InHand(s); assert s.hands[step.e].value in [s.hands[step.e].value]; }
  }

  lemma {:induction false} LeadsPlaces(s: State, steps: seq<Step>, t: State, passes: Job -> bool, id: Id)
    requires Leads(s, steps, t, passes)
    ensures Places(t, id) >= Places(s, id)
    decreases |steps|
  {
    if steps != [] {
      hide Places, Enabled, Next, Obeys, Daemon;
      StepPlaces(s, steps[0], id);
      LeadsPlaces(Next(s, steps[0]), steps[1..], t, passes, id);
    }
  }

  lemma {:induction false} RunLeads(states: seq<State>, run: seq<Step>, steps: seq<Step>, t: State, passes: Job -> bool)
      returns (states': seq<State>, run': seq<Step>)
    requires IsRun(states, run) && |states| == |run| + 1 && Leads(states[|run|], steps, t, passes)
    ensures IsRun(states', run') && |states'| == |run'| + 1 && states'[|run'|] == t
    decreases |steps|
  {
    if steps == [] {
      states', run' := states, run;
    } else {
      hide IsRun, Enabled, Next, Obeys, Daemon;
      states', run' := RunOn(states, run, steps[0]);
      states', run' := RunLeads(states', run', steps[1..], t, passes);
    }
  }

  /** The fourth attempt can be the one that succeeds: a run that saves a job after three failures. */
  lemma FourthAttempt() returns (states: seq<State>, run: seq<Step>)
    ensures IsRun(states, run) && |states| == |run| + 1
    ensures states[|run|].saved != [] && forall job :: job in states[|run|].saved ==> job.attempts == 4
  {
    var passes := (job: Job) => job.attempts == 3;
    states, run := OneQueued([None]);
    var s := states[|run|];
    AtMostFourAttempts(states, run, |run|);
    var steps, t := EachGetsOut(states, run, |run|, passes);
    SavedAtFourth(s, steps, t);
    LeadsPlaces(s, steps, t, passes, "a");
    RunInvariant(states, run, |run|);
    LeadsInvariant(s, steps, t, passes);
    states, run := RunLeads(states, run, steps, t, passes);
    assert Places(t, "a") == 1;
  }

  /** Once the fetch loop has ended, the executors can still finish what is not waiting for a retry. */
  lemma {:induction false} DrainsWhenStopped(s: State, passes: Job -> bool) returns (steps: seq<Step>, t: State)
    requires AttemptsBounded(s) && s.fetcher.Stopped? && s.retryQueue == [] && |s.hands| > 0
    requires forall job :: passes(job)
    ensures Leads(s, steps, t, passes) && Remaining(t) == 0
    decreases Remaining(s)
  {
    hide AttemptsBounded, Remaining, Leads;
    if Remaining(s) == 0 {
      NoSteps(s, passes);
      return [], s;
    }
    var a, u := Work(s, passes);
    LeadsKeeps(s, a, u, passes);
    var b;
    b, t := DrainsWhenStopped(u, passes);
    LeadsOn(s, a, u, b, t, passes);
    steps := a + b;
  }

  // ---------------------------------------------------------------- where jobs stay for ever

  /** No executor, or retries that no fetch will ever take up again. */
  ghost predicate Stuck(s: State) {
    Remaining(s) > 0 && (|s.hands| == 0 || (s.fetcher.Stopped? && s.retryQueue != []))
  }

  lemma StuckStep(s: State, step: Step)
    requires AttemptsBounded(s) && Enabled(s, step) && Stuck(s)
    ensures Stuck(Next(s, step))
  {
    StepRemaining(s, step);
    StepAttempts(s, step);
    LeftZero(Next(s, step).retryQueue);
  }

  /** Whatever happens, also with time and new reports, jobs that are stuck never all get out. */
  lemma {:induction false} StuckForEver(s: State, steps: seq<Step>)
    requires AttemptsBounded(s) && Stuck(s)
    ensures After(s, steps).Some? ==> Remaining(After(s, steps).value) > 0
    decreases |steps|
  {
    if steps != [] && Enabled(s, steps[0]) {
      StuckStep(s, steps[0]);
      StepAttempts(s, steps[0]);
      hide AttemptsBounded, Stuck, Enabled, Next, Remaining;
      StuckForEver(Next(s, steps[0]), steps[1..]);
    }
  }

  lemma RunOn(states: seq<State>, run: seq<Step>, step: Step) returns (states': seq<State>, run': seq<Step>)
    requires IsRun(states, run) && Enabled(states[|run|], step)
    ensures IsRun(states', run') && |run'| == |run| + 1 == |states'| - 1 && states'[|run'|] == Next(states[|run|], step)
  {
    hide Enabled, Next, Init;
    states', run' := states + [Next(states[|run|], step)], run + [step];
  }

  const ONE_APP := map["a" := App(100, SUCCEEDED, true)]

  lemma ReadOne()
    ensures ReadApps(["a"], ONE_APP, 0, {}) == [Job("a", 0, 0)] && ReadApps([], ONE_APP, 0, {}) == []
    ensures IsAnswer(["a"], ONE_APP, SUCCEEDED, 1, 140000) && IsAnswer([], ONE_APP, FAILED, 1, 140000)
  {
    assert ["a"][0] == "a" && ["a"][1..] == [];
  }

  lemma OneFetched(hands: seq<Option<Job>>) returns (states: seq<State>, run: seq<Step>)
    requires forall e :: 0 <= e < |hands| ==> hands[e].None?
    ensures IsRun(states, run)
    ensures var s := states[|run|];
            && s.fetcher.Draining? && s.fetcher.found == [Job("a", 0, 0)] && s.fetcher.drained == []
            && s.retryQueue == [] && s.jobQueue == [] && s.hands == hands && s.saved == s.dropped == []
  {
    ReadOne();
    hide ReadApps, IsAnswer;
    states, run := [State(200000, ONE_APP, {}, 0, Waiting, [], [], hands, [], [], {}, 0)], [];
    states, run := RunOn(states, run, StartFetch);
    states, run := RunOn(states, run, ReadSucceeded(["a"]));
    states, run := RunOn(states, run, ReadFailed([]));
    assert [Job("a", 0, 0)] + [] == [Job("a", 0, 0)];
  }

  lemma OneQueued(hands: seq<Option<Job>>) returns (states: seq<State>, run: seq<Step>)
    requires forall e :: 0 <= e < |hands| ==> hands[e].None?
    ensures IsRun(states, run)
    ensures |states| == |run| + 1
    ensures var s := states[|run|];
            s.fetcher.Waiting? && s.jobQueue == [Job("a", 0, 0)] && s.hands == hands && s.saved == s.dropped == []
  {
    states, run := OneFetched(hands);
    hide IsRun;
    states, run := RunOn(states, run, Commit);
    states, run := RunOn(states, run, FeedOne);
    states, run := RunOn(states, run, EndFeed);
  }

  lemma StuckAtEnd(states: seq<State>, run: seq<Step>)
    requires IsRun(states, run) && Stuck(states[|run|])
    ensures forall steps :: After(states[|run|], steps).Some? ==> Remaining(After(states[|run|], steps).value) > 0
  {
    AtMostFourAttempts(states, run, |run|);
    hide IsRun, AttemptsBounded, Stuck, Remaining;
    forall steps ensures After(states[|run|], steps).Some? ==> Remaining(After(states[|run|], steps).value) > 0 {
      StuckForEver(states[|run|], steps);
    }
  }

  lemma OneFailed() returns (states: seq<State>, run: seq<Step>)
    ensures IsRun(states, run)
    ensures var s := states[|run|]; s.fetcher.Waiting? && |s.hands| == 1 && s.retryQueue != []
  {
    states, run := OneQueued([None]);
    hide IsRun;
    states, run := RunOn(states, run, Take(0));
    states, run := RunOn(states, run, Fail(0));
  }

  /** A run that ends like this: an application is fetched, its first attempt fails, and the fetch loop ends before
      it takes up the retry. */
  lemma StuckRun() returns (states: seq<State>, run: seq<Step>)
    ensures IsRun(states, run) && |states[|run|].hands| > 0 && Stuck(states[|run|])
    ensures forall steps :: After(states[|run|], steps).Some? ==> Remaining(After(states[|run|], steps).value) > 0
  {
    states, run := OneFailed();
    hide IsRun;
    states, run := RunOn(states, run, StopFetcher);
    AtMostFourAttempts(states, run, |run|);
    hide Enabled, Next, AttemptsBounded;
    NothingUnderWay(states[|run|]);
    StuckAtEnd(states, run);
  }

  /** Another one: the fetch loop goes on, but there is no executor to take the application that it has found. */
  lemma NoExecutorRun() returns (states: seq<State>, run: seq<Step>)
    ensures IsRun(states, run) && states[|run|].hands == [] && states[|run|].fetcher.Waiting?
    ensures Stuck(states[|run|])
    ensures forall steps :: After(states[|run|], steps).Some? ==> Remaining(After(states[|run|], steps).value) > 0
  {
    states, run := OneQueued([]);
    AtMostFourAttempts(states, run, |run|);
    hide IsRun, AttemptsBounded;
    NothingUnderWay(states[|run|]);
    StuckAtEnd(states, run);
  }

  /** The daemon can finish all jobs under way on its own. */
  ghost predicate CanDrain(s: State) {
    exists steps :: (forall i :: 0 <= i < |steps| ==> Daemon(steps[i]))
                    && After(s, steps).Some? && Remaining(After(s, steps).value) == 0
  }

  /** In every state of every run: all jobs can get out exactly if there is none, or there is an executor and either
      the fetch loop goes on or nothing waits for a retry. */
  lemma DrainsExactly(states: seq<State>, run: seq<Step>, i: nat)
    requires IsRun(states, run) && i < |states|
    ensures var s := states[i];
            CanDrain(s) <==> Remaining(s) == 0 || (|s.hands| > 0 && (!s.fetcher.Stopped? || s.retryQueue == []))
  {
    var s := states[i];
    AtMostFourAttempts(states, run, i);
    hide AttemptsBounded, IsRun, Leads, Enabled, Next;
    if Stuck(s) {
      forall steps ensures After(s, steps).Some? ==> Remaining(After(s, steps).value) > 0 {
        StuckForEver(s, steps);
      }
    } else {
      var passes := (job: Job) => true;
      var steps, t;
      if Remaining(s) == 0 {
        steps, t := [], s;
        NoSteps(s, passes);
      } else if !s.fetcher.Stopped? {
        steps, t := DrainsWhateverFails(s, passes);
      } else {
        steps, t := DrainsWhenStopped(s, passes);
      }
      LeadsKeeps(s, steps, t, passes);
    }
  }
}
