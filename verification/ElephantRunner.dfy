/** One round of each of Dr. Elephant's threads in place: the fetch loop fills the work queue, and an executor
    takes a job and saves, retries or drops it.  How the rounds interleave is the protocol's subject. */
module ElephantRunner {
  import opened Basics
  import opened AnalysisProtocol
  import opened JobGenerator

  datatype Outcome = Saved | QueuedAgain | Dropped

  class Runner {
    var jobQueue: seq<AnalyticJob>
    const generator: AnalyticJobGenerator

    constructor ()
      ensures jobQueue == [] && generator.retryQueue == [] && generator.lastTime == 0
    {
      jobQueue := [];
      generator := new AnalyticJobGenerator();
    }

    /** One turn of the fetch loop: what a fetch returns goes behind the work queue; a throwing fetch changes nothing
        that matters. */
    method FetchRound(clock: int, succeeded: Option<seq<Id>>, failed: Option<seq<Id>>, seen: map<Id, App>, db: set<Id>)
      requires succeeded.Some? ==>
                 IsAnswer(succeeded.value, seen, SUCCEEDED, generator.lastTime + 1, clock - 60000)
      requires failed.Some? ==> IsAnswer(failed.value, seen, FAILED, generator.lastTime + 1, clock - 60000)
      modifies `jobQueue, generator
      ensures succeeded.None? || failed.None? ==>
                jobQueue == old(jobQueue) && generator.lastTime == old(generator.lastTime)
                && generator.retryQueue == old(generator.retryQueue)
      ensures succeeded.Some? && failed.Some? ==>
                && generator.lastTime == clock - 60000 && generator.retryQueue == []
                && Values(jobQueue) == old(Values(jobQueue))
                                       + (AnalysisProtocol.ReadApps(succeeded.value, seen, old(generator.lastTime), db)
                                          + AnalysisProtocol.ReadApps(failed.value, seen, old(generator.lastTime), db)
                                          + old(Values(generator.retryQueue)))
    {
      hide AnalysisProtocol.ReadApps, IsAnswer;
      ghost var queued := Values(jobQueue);
      var todos := generator.FetchAnalyticJobs(clock, succeeded, failed, seen, db);
      if todos.None? {
        return;
      }
      assert Values(jobQueue) == queued;
      assert Values(jobQueue + todos.value) == Values(jobQueue) + Values(todos.value);
      jobQueue := jobQueue + todos.value;
    }

    /** One turn of an executor's loop, once the work queue has a job; `analysed` says whether the analysis and the
        save went through without an exception. */
    method ExecuteRound(analysed: bool) returns (job: AnalyticJob, outcome: Outcome)
      requires jobQueue != []
      modifies `jobQueue, generator`retryQueue, jobQueue[0]
      ensures job == old(jobQueue[0]) && jobQueue == old(jobQueue[1..])
      ensures outcome.Saved? <==> analysed
      ensures outcome.Dropped? <==> !analysed && old(jobQueue[0].retries) >= 3
      ensures job.retries == old(jobQueue[0].retries) + if analysed then 0 else 1
      ensures generator.retryQueue == old(generator.retryQueue) + if outcome.QueuedAgain? then [job] else []
      ensures job.Value() == if analysed then old(jobQueue[0].Value())
                             else
                               AnalysisProtocol.Retry(old(jobQueue[0].Value())).0
                               .(attempts := old(jobQueue[0].retries) + 1)
    {
      job := jobQueue[0];
      jobQueue := jobQueue[1..];
      if analysed {
        return job, Saved;
      }
      var again := job.Retry();
      if again {
        generator.AddIntoRetries(job);
        outcome := QueuedAgain;
      } else {
        outcome := Dropped;
      }
    }
  }
}
