/** The fetching side of Dr. Elephant in place: jobs that count their own retries, and the generator with
    its time window and retry queue.  The answers of the resource manager are arguments. */
module JobGenerator {
  import opened Basics
  import opened AnalysisProtocol

  class AnalyticJob {
    const id: Id
    var retries: nat

    constructor (id: Id)
      ensures this.id == id && retries == 0
    {
      this.id, retries := id, 0;
    }

    /** A job under way has failed as often as it was tried. */
    function Value(): Job
      reads this
    {
      Job(id, retries, retries)
    }

    /** Count a failure, and say whether to try again. */
    method Retry() returns (again: bool)
      modifies this
      ensures (again <==> old(retries) < 3) && retries == old(retries) + 1
      ensures (Value().(attempts := old(Value().attempts)), again) == AnalysisProtocol.Retry(old(Value()))
    {
      again := retries < RETRY_LIMIT;
      retries := retries + 1;
    }
  }

  function Values(jobs: seq<AnalyticJob>): (values: seq<Job>)
    reads jobs
    ensures |values| == |jobs|
  {
    seq(|jobs|, i requires 0 <= i < |jobs| reads jobs => jobs[i].Value())
  }

  lemma ReadStep(done: seq<Job>, answer: seq<Id>, i: nat, seen: map<Id, App>, lastTime: int, db: set<Id>)
    requires i < |answer| && forall id :: id in answer ==> id in seen
    ensures var id := answer[i];
            var found := if (lastTime > 0 || (lastTime == 0 && id !in db)) && seen[id].supported then [Job(id, 0, 0)]
                           else [];
            done + AnalysisProtocol.ReadApps(answer[i..], seen, lastTime, db) ==
            done + found + AnalysisProtocol.ReadApps(answer[i + 1..], seen, lastTime, db)
    ensures done + [] == done
  {
    assert answer[i..][0] == answer[i] && answer[i..][1..] == answer[i + 1..];
  }

  lemma ReadEnd(seen: map<Id, App>, lastTime: int, db: set<Id>)
    ensures AnalysisProtocol.ReadApps([], seen, lastTime, db) == []
  {
  }

  lemma ValuesAppend(a: seq<AnalyticJob>, b: seq<AnalyticJob>)
    ensures Values(a + b) == Values(a) + Values(b)
  {
  }

  lemma AnswersSeen(succeeded: Option<seq<Id>>, failed: Option<seq<Id>>, seen: map<Id, App>, lastTime: int, clock: int)
    requires succeeded.Some? ==> IsAnswer(succeeded.value, seen, SUCCEEDED, lastTime + 1, clock - 60000)
    requires failed.Some? ==> IsAnswer(failed.value, seen, FAILED, lastTime + 1, clock - 60000)
    ensures succeeded.Some? ==> forall id :: id in succeeded.value ==> id in seen
    ensures failed.Some? ==> forall id :: id in failed.value ==> id in seen
  {
  }

  class AnalyticJobGenerator {
    var lastTime: int
    var currentTime: int
    var retryQueue: seq<AnalyticJob>

    constructor ()
      ensures lastTime == 0 && retryQueue == []
    {
      lastTime, currentTime, retryQueue := 0, 0, [];
    }

    method AddIntoRetries(job: AnalyticJob)
      modifies `retryQueue
      ensures retryQueue == old(retryQueue) + [job]
    {
      retryQueue := retryQueue + [job];
    }

    /** The applications of an answer that are supported and, on the first fetch, not in the database. */
    method ReadApps(answer: seq<Id>, seen: map<Id, App>, db: set<Id>) returns (jobs: seq<AnalyticJob>)
      requires forall id :: id in answer ==> id in seen
      ensures Values(jobs) == AnalysisProtocol.ReadApps(answer, seen, lastTime, db)
      ensures forall j :: j in jobs ==> fresh(j)
    {
      hide AnalysisProtocol.ReadApps;
      jobs := [];
      ghost var done: seq<Job>, whole := [], AnalysisProtocol.ReadApps(answer, seen, lastTime, db);
      assert answer[0..] == answer;
      for i := 0 to |answer|
        invariant forall j :: j in jobs ==> fresh(j)
        invariant Values(jobs) == done && done + AnalysisProtocol.ReadApps(answer[i..], seen, lastTime, db) == whole
      {
        var id := answer[i];
        ReadStep(done, answer, i, seen, lastTime, db);
        if lastTime > 0 || (lastTime == 0 && id !in db) {
          if seen[id].supported {
            var job := new AnalyticJob(id);
            assert Values(jobs) == done;
            jobs := jobs + [job];
            done := done + [Job(id, 0, 0)];
          }
        }
      }
      assert answer[|answer|..] == [];
      ReadEnd(seen, lastTime, db);
      assert done + [] == done;
    }

    /** Fetch what finished in the window, append the retry queue, and move the window on; if either query
        throws, the window and the retry queue stay. */
    method FetchAnalyticJobs(clock: int, succeeded: Option<seq<Id>>, failed: Option<seq<Id>>, seen: map<Id, App>,
                             db: set<Id>)
      returns (jobs: Option<seq<AnalyticJob>>)
      requires succeeded.Some? ==> IsAnswer(succeeded.value, seen, SUCCEEDED, lastTime + 1, clock - 60000)
      requires failed.Some? ==> IsAnswer(failed.value, seen, FAILED, lastTime + 1, clock - 60000)
      modifies this
      ensures jobs.None? <==> succeeded.None? || failed.None?
      ensures jobs.None? ==> lastTime == old(lastTime) && retryQueue == old(retryQueue)
      ensures jobs.Some? ==> lastTime == clock - 60000 && retryQueue == []
      ensures jobs.Some? ==> Values(jobs.value) == AnalysisProtocol.ReadApps(succeeded.value, seen, old(lastTime), db)
                                                  + AnalysisProtocol.ReadApps(failed.value, seen, old(lastTime), db)
                                                  + old(Values(retryQueue))
    {
      hide AnalysisProtocol.ReadApps, IsAnswer;
      currentTime := clock - FETCH_DELAY;
      AnswersSeen(succeeded, failed, seen, lastTime, clock);
      if succeeded.None? { return None; }
      var appList := ReadApps(succeeded.value, seen, db);
      if failed.None? { return None; }
      var failedApps := ReadApps(failed.value, seen, db);
      ValuesAppend(appList, failedApps);
      appList := appList + failedApps;
      ValuesAppend(appList, retryQueue);
      appList := Drain(appList);
      lastTime := currentTime;
      jobs := Some(appList);
    }

    /** Append the retry queue to a list, emptying it. */
    method Drain(found: seq<AnalyticJob>) returns (appList: seq<AnalyticJob>)
      modifies `retryQueue
      ensures appList == found + old(retryQueue) && retryQueue == []
    {
      appList := found;
      while retryQueue != []
        invariant appList + retryQueue == found + old(retryQueue)
        decreases |retryQueue|
      {
        appList, retryQueue := appList + [retryQueue[0]], retryQueue[1..];
      }
    }
  }
}
