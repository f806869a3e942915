/** The history pages: jobs grouped by an identifier, the limit on the groups shown, and what both promise. */
module HistorySpec {
  import opened Basics

  datatype AppResult = AppResult(jobExecId: string, jobExecUrl: string, jobDefId: string, jobDefUrl: string,
                                 flowExecId: string, flowExecUrl: string, finishTime: int, score: int)

  datatype GroupBy = JobExecutionId | JobDefinitionId | FlowExecutionId

  /** Two pairs are equal for the program if their ids are; within one map ids do not repeat. */
  datatype IdUrlPair = IdUrlPair(id: string, url: string)

  function IdOf(job: AppResult, groupBy: GroupBy): string {
    match groupBy
    case JobExecutionId => job.jobExecId
    case JobDefinitionId => job.jobDefId
    case FlowExecutionId => job.flowExecId
  }

  function UrlOf(job: AppResult, groupBy: GroupBy): string {
    match groupBy
    case JobExecutionId => job.jobExecUrl
    case JobDefinitionId => job.jobDefUrl
    case FlowExecutionId => job.flowExecUrl
  }

  // ---------------------------------------------------------------- grouping

  /** The ids in the order in which they first occur. */
  function Ids(jobs: seq<AppResult>, groupBy: GroupBy): seq<string> {
    if jobs == [] then []
    else
      var ids, id := Ids(jobs[..|jobs| - 1], groupBy), IdOf(jobs[|jobs| - 1], groupBy);
      if id in ids then ids else ids + [id]
  }

  /** The jobs with an id, in their order. */
  function Having(jobs: seq<AppResult>, groupBy: GroupBy, id: string): seq<AppResult> {
    if jobs == [] then []
    else
      var last := jobs[|jobs| - 1];
      Having(jobs[..|jobs| - 1], groupBy, id) + if IdOf(last, groupBy) == id then [last] else []
  }

  /** Every id has one group, and no group is empty. */
  lemma {:induction false} GroupsAreIds(jobs: seq<AppResult>, groupBy: GroupBy)
    ensures Distinct(Ids(jobs, groupBy))
    ensures forall i :: 0 <= i < |jobs| ==> IdOf(jobs[i], groupBy) in Ids(jobs, groupBy)
    ensures forall id :: id in Ids(jobs, groupBy) <==> Having(jobs, groupBy, id) != []
  {
    if jobs != [] {
      hide IdOf;
      var init, last := jobs[..|jobs| - 1], jobs[|jobs| - 1];
      GroupsAreIds(init, groupBy);
      IdsGrow(Ids(init, groupBy), IdOf(last, groupBy));
      assert jobs == init + [last];
      forall id ensures Having(jobs, groupBy, id) != [] <==>
                        Having(init, groupBy, id) != [] || IdOf(last, groupBy) == id {}
    }
  }

  lemma IdsGrow(ids: seq<string>, id: string)
    requires Distinct(ids)
    ensures id !in ids ==> Distinct(ids + [id])
    ensures forall other :: other in ids + [id] <==> other in ids || other == id
  {
  }

  /** The places of the jobs with an id. */
  function PlacesOf(jobs: seq<AppResult>, groupBy: GroupBy, id: string): seq<nat> {
    if jobs == [] then []
    else
      var n := |jobs| - 1;
      PlacesOf(jobs[..n], groupBy, id) + if IdOf(jobs[n], groupBy) == id then [n] else []
  }

  lemma {:induction false} PlacesInOrder(jobs: seq<AppResult>, groupBy: GroupBy, id: string)
    ensures var places, group := PlacesOf(jobs, groupBy, id), Having(jobs, groupBy, id);
            && |places| == |group| && (forall i, j :: 0 <= i < j < |places| ==> places[i] < places[j])
            && forall i :: 0 <= i < |places| ==> places[i] < |jobs| && jobs[places[i]] == group[i]
  {
    if jobs != [] {
      hide IdOf;
      PlacesInOrder(jobs[..|jobs| - 1], groupBy, id);
    }
  }

  lemma {:induction false} PlacesComplete(jobs: seq<AppResult>, groupBy: GroupBy, id: string, p: nat)
    requires p < |jobs|
    ensures p in PlacesOf(jobs, groupBy, id) <==> IdOf(jobs[p], groupBy) == id
  {
    hide IdOf;
    if p < |jobs| - 1 {
      PlacesComplete(jobs[..|jobs| - 1], groupBy, id, p);
    } else {
      PlacesInOrder(jobs[..|jobs| - 1], groupBy, id);
    }
  }

  /** A group holds exactly the jobs with its id, each at its place in the order. */
  lemma GroupKeepsOrder(jobs: seq<AppResult>, groupBy: GroupBy, id: string) returns (places: seq<nat>)
    ensures |places| == |Having(jobs, groupBy, id)|
    ensures forall i :: 0 <= i < |places| ==> places[i] < |jobs| && jobs[places[i]] == Having(jobs, groupBy, id)[i]
    ensures forall i, j :: 0 <= i < j < |places| ==> places[i] < places[j]
    ensures forall p: nat :: p < |jobs| ==> (p in places <==> IdOf(jobs[p], groupBy) == id)
  {
    hide IdOf, PlacesOf, Having;
    places := PlacesOf(jobs, groupBy, id);
    PlacesInOrder(jobs, groupBy, id);
    forall p: nat | p < |jobs| ensures p in places <==> IdOf(jobs[p], groupBy) == id {
      PlacesComplete(jobs, groupBy, id, p);
    }
  }

  /** The groups are those of the fields they are named for. */
  lemma GroupsByField(jobs: seq<AppResult>, job: AppResult, id: string)
    requires job in jobs
    ensures job in Having(jobs, JobExecutionId, id) <==> job.jobExecId == id
    ensures job in Having(jobs, JobDefinitionId, id) <==> job.jobDefId == id
    ensures job in Having(jobs, FlowExecutionId, id) <==> job.flowExecId == id
  {
    InGroup(jobs, JobExecutionId, id, job);
    InGroup(jobs, JobDefinitionId, id, job);
    InGroup(jobs, FlowExecutionId, id, job);
  }

  lemma {:induction false} InGroup(jobs: seq<AppResult>, groupBy: GroupBy, id: string, job: AppResult)
    ensures job in Having(jobs, groupBy, id) <==> job in jobs && IdOf(job, groupBy) == id
  {
    if jobs != [] {
      hide IdOf;
      InGroup(jobs[..|jobs| - 1], groupBy, id, job);
      assert jobs == jobs[..|jobs| - 1] + [jobs[|jobs| - 1]];
    }
  }

  /** The ids come in the order of their first jobs. */
  lemma {:induction false} FirstJobs(jobs: seq<AppResult>, groupBy: GroupBy, i: nat, j: nat) returns (p: nat, q: nat)
    requires i < j < |Ids(jobs, groupBy)|
    ensures p < q < |jobs|
    ensures IdOf(jobs[p], groupBy) == Ids(jobs, groupBy)[i] && IdOf(jobs[q], groupBy) == Ids(jobs, groupBy)[j]
  {
    var init := jobs[..|jobs| - 1];
    if j < |Ids(init, groupBy)| {
      p, q := FirstJobs(init, groupBy, i, j);
    } else {
      p := JobOf(init, groupBy, Ids(init, groupBy)[i]);
      q := |jobs| - 1;
    }
  }

  lemma {:induction false} JobOf(jobs: seq<AppResult>, groupBy: GroupBy, id: string) returns (p: nat)
    requires id in Ids(jobs, groupBy)
    ensures p < |jobs| && IdOf(jobs[p], groupBy) == id
  {
    if IdOf(jobs[|jobs| - 1], groupBy) == id {
      p := |jobs| - 1;
    } else {
      p := JobOf(jobs[..|jobs| - 1], groupBy, id);
    }
  }

  // ---------------------------------------------------------------- conservation

  function Total(jobs: seq<AppResult>, weight: AppResult -> int): int {
    if jobs == [] then 0 else Total(jobs[..|jobs| - 1], weight) + weight(jobs[|jobs| - 1])
  }

  function GroupTotal(ids: seq<string>, jobs: seq<AppResult>, groupBy: GroupBy, weight: AppResult -> int): int {
    if ids == [] then 0
    else GroupTotal(ids[..|ids| - 1], jobs, groupBy, weight) + Total(Having(jobs, groupBy, ids[|ids| - 1]), weight)
  }

  lemma TotalMore(jobs: seq<AppResult>, job: AppResult, weight: AppResult -> int)
    ensures Total(jobs + [job], weight) == Total(jobs, weight) + weight(job)
  {
    assert (jobs + [job])[..|jobs|] == jobs;
  }

  /** One job more adds its weight to the one group it belongs to. */
  lemma {:induction false} GroupTotalMore(ids: seq<string>, jobs: seq<AppResult>, groupBy: GroupBy,
                                          weight: AppResult -> int)
    requires Distinct(ids) && jobs != []
    ensures var init, last := jobs[..|jobs| - 1], jobs[|jobs| - 1];
            GroupTotal(ids, jobs, groupBy, weight) ==
            GroupTotal(ids, init, groupBy, weight) + if IdOf(last, groupBy) in ids then weight(last) else 0
  {
    if ids != [] {
      var n := |ids| - 1;
      var init, last := jobs[..|jobs| - 1], jobs[|jobs| - 1];
      GroupTotalMore(ids[..n], jobs, groupBy, weight);
      HavingMore(jobs, groupBy, ids[n], weight);
      LastIn(ids, IdOf(last, groupBy));
      GroupTotalLast(ids, jobs, groupBy, weight);
      GroupTotalLast(ids, init, groupBy, weight);
      hide Having, Total, IdOf, GroupTotal;
    }
  }

  lemma LastIn<T>(s: seq<T>, x: T)
    requires Distinct(s) && s != []
    ensures x in s <==> x in s[..|s| - 1] || x == s[|s| - 1]
    ensures x == s[|s| - 1] ==> x !in s[..|s| - 1]
  {
  }

  lemma GroupTotalLast(ids: seq<string>, jobs: seq<AppResult>, groupBy: GroupBy, weight: AppResult -> int)
    requires ids != []
    ensures var n := |ids| - 1;
            GroupTotal(ids, jobs, groupBy, weight) ==
            GroupTotal(ids[..n], jobs, groupBy, weight) + Total(Having(jobs, groupBy, ids[n]), weight)
  {
  }

  lemma HavingMore(jobs: seq<AppResult>, groupBy: GroupBy, id: string, weight: AppResult -> int)
    requires jobs != []
    ensures var init, last := jobs[..|jobs| - 1], jobs[|jobs| - 1];
            Total(Having(jobs, groupBy, id), weight) ==
            Total(Having(init, groupBy, id), weight) + if IdOf(last, groupBy) == id then weight(last) else 0
  {
    var init, last := jobs[..|jobs| - 1], jobs[|jobs| - 1];
    TotalMore(Having(init, groupBy, id), last, weight);
    assert Having(init, groupBy, id) + [] == Having(init, groupBy, id);
  }

  /** Whatever is added up, over the groups it comes to the same as over all jobs: no job is lost or counted twice. */
  lemma {:induction false} GroupsConserve(jobs: seq<AppResult>, groupBy: GroupBy, weight: AppResult -> int)
    ensures GroupTotal(Ids(jobs, groupBy), jobs, groupBy, weight) == Total(jobs, weight)
  {
    if jobs != [] {
      var init, last := jobs[..|jobs| - 1], jobs[|jobs| - 1];
      GroupsConserve(init, groupBy, weight);
      GroupsAreIds(init, groupBy);
      GroupsAreIds(jobs, groupBy);
      GroupTotalMore(Ids(init, groupBy), jobs, groupBy, weight);
      if IdOf(last, groupBy) !in Ids(init, groupBy) {
        NewGroup(jobs, groupBy, weight);
      }
    }
  }

  lemma NewGroup(jobs: seq<AppResult>, groupBy: GroupBy, weight: AppResult -> int)
    requires jobs != [] && IdOf(jobs[|jobs| - 1], groupBy) !in Ids(jobs[..|jobs| - 1], groupBy)
    ensures var ids, last := Ids(jobs[..|jobs| - 1], groupBy), jobs[|jobs| - 1];
            GroupTotal(Ids(jobs, groupBy), jobs, groupBy, weight)
              == GroupTotal(ids, jobs, groupBy, weight) + weight(last)
  {
    var init, last := jobs[..|jobs| - 1], jobs[|jobs| - 1];
    var ids, id := Ids(init, groupBy), IdOf(last, groupBy);
    GroupsAreIds(init, groupBy);
    assert Having(jobs, groupBy, id) == [] + [last];
    assert (ids + [id])[..|ids|] == ids;
    TotalMore([], last, weight);
  }

  // ---------------------------------------------------------------- the limit

  const JOB_HISTORY_LIMIT := 5000
  const MAX_HISTORY_LIMIT := 15

  /** How many groups `limitHistoryResults` keeps at most. */
  function Limit(groups: nat, size: nat, execLimit: int): int {
    if size < JOB_HISTORY_LIMIT then execLimit
    else if groups > 10 then (if groups > execLimit + 3 then execLimit else groups - 3)
    else groups - 1
  }

  function Kept(groups: nat, size: nat, execLimit: int): nat { Max(Min(Limit(groups, size, execLimit), groups), 0) }

  lemma AtMostFifteen(groups: nat, size: nat)
    ensures Kept(groups, size, MAX_HISTORY_LIMIT) <= MAX_HISTORY_LIMIT
    ensures size < JOB_HISTORY_LIMIT && groups <= MAX_HISTORY_LIMIT ==> Kept(groups, size, MAX_HISTORY_LIMIT) == groups
  {
  }

  /** From below as well: of a query that was not cut off everything is kept up to fifteen groups; otherwise fifteen
      groups are kept, or all but three of more than ten, or all but one of ten or fewer. */
  lemma KeptOf(groups: nat, size: nat)
    ensures size < 5000 ==> Kept(groups, size, MAX_HISTORY_LIMIT) == Min(groups, 15)
    ensures size >= 5000 && groups >= 18 ==> Kept(groups, size, MAX_HISTORY_LIMIT) == 15
    ensures size >= 5000 && 10 < groups <= 18 ==> Kept(groups, size, MAX_HISTORY_LIMIT) == groups - 3
    ensures size >= 5000 && 0 < groups <= 10 ==> Kept(groups, size, MAX_HISTORY_LIMIT) == groups - 1
  {
  }

  /** The newest jobs, as many as the query returns. */
  function Newest(all: seq<AppResult>): seq<AppResult> { all[..Min(|all|, JOB_HISTORY_LIMIT)] }

  /** The jobs of every flow follow one another. */
  ghost predicate Contiguous(jobs: seq<AppResult>, groupBy: GroupBy) {
    forall p, q, r :: 0 <= p < q < r < |jobs| && IdOf(jobs[p], groupBy) == IdOf(jobs[r], groupBy) ==>
                        IdOf(jobs[q], groupBy) == IdOf(jobs[p], groupBy)
  }

  /** A group cut off after n jobs is complete if and only if no later job belongs to it. */
  lemma {:induction false} GroupCutOff(all: seq<AppResult>, n: nat, groupBy: GroupBy, id: string)
    requires n <= |all|
    ensures var part, whole := Having(all[..n], groupBy, id), Having(all, groupBy, id);
            && |part| <= |whole| && (part == whole <==> |part| == |whole|)
            && (part == whole <==> forall r :: n <= r < |all| ==> IdOf(all[r], groupBy) != id)
  {
    if n < |all| {
      var init := all[..|all| - 1];
      GroupCutOff(init, n, groupBy, id);
      assert init[..n] == all[..n];
      assert Having(init, groupBy, id) + [] == Having(init, groupBy, id);
    } else {
      assert all[..n] == all;
    }
  }

  /** No job behind the cut belongs to one of the first k groups. */
  ghost predicate NothingLost(all: seq<AppResult>, groupBy: GroupBy, k: nat)
    requires k <= |Ids(Newest(all), groupBy)|
  {
    forall r :: |Newest(all)| <= r < |all| ==> IdOf(all[r], groupBy) !in Ids(Newest(all), groupBy)[..k]
  }

  /** The first k groups have all their jobs, also those behind the cut. */
  ghost predicate Complete(all: seq<AppResult>, groupBy: GroupBy, k: nat)
    requires k <= |Ids(Newest(all), groupBy)|
  {
    forall i :: 0 <= i < k ==>
                  var id := Ids(Newest(all), groupBy)[i];
                  Having(Newest(all), groupBy, id) == Having(all, groupBy, id)
  }

  lemma CompleteIfNothingLost(all: seq<AppResult>, groupBy: GroupBy, k: nat)
    requires k <= |Ids(Newest(all), groupBy)|
    ensures Complete(all, groupBy, k) <==> NothingLost(all, groupBy, k)
  {
    hide Ids, Having, IdOf;
    var ids, n := Ids(Newest(all), groupBy), |Newest(all)|;
    forall i | 0 <= i < k
      ensures Having(Newest(all), groupBy, ids[i]) == Having(all, groupBy, ids[i])
         <==> forall r :: n <= r < |all| ==> IdOf(all[r], groupBy) != ids[i]
    {
      GroupCutOff(all, n, groupBy, ids[i]);
    }
    if Complete(all, groupBy, k) {
      forall r | n <= r < |all| ensures IdOf(all[r], groupBy) !in ids[..k] {
        assert forall i :: 0 <= i < k ==> ids[..k][i] == ids[i];
      }
    }
    if NothingLost(all, groupBy, k) {
      forall i | 0 <= i < k ensures forall r :: n <= r < |all| ==> IdOf(all[r], groupBy) != ids[i] {
        assert ids[..k][i] == ids[i];
      }
    }
  }

  /** What the limit keeps is complete if and only if no job behind the cut belongs to a group that is kept. */
  lemma KeptCompleteExactly(all: seq<AppResult>, groupBy: GroupBy, execLimit: int)
    ensures var k := Kept(|Ids(Newest(all), groupBy)|, |Newest(all)|, execLimit);
            Complete(all, groupBy, k) <==> NothingLost(all, groupBy, k)
  {
    CompleteIfNothingLost(all, groupBy, Kept(|Ids(Newest(all), groupBy)|, |Newest(all)|, execLimit));
  }

  /** How many groups are given up where the query was cut off. */
  function Spare(groups: nat): nat { if groups > 10 then 3 else Min(groups, 1) }

  /** Flows may overlap, as long as what is behind the cut belongs to groups that are given up: the last three of more
      than ten, or else the last one. */
  lemma SparedGroups(all: seq<AppResult>, groupBy: GroupBy, execLimit: int)
    requires var groups := |Ids(Newest(all), groupBy)|; NothingLost(all, groupBy, groups - Spare(groups))
    ensures Complete(all, groupBy, Kept(|Ids(Newest(all), groupBy)|, |Newest(all)|, execLimit))
  {
    var ids := Ids(Newest(all), groupBy);
    var k := Kept(|ids|, |Newest(all)|, execLimit);
    forall r | |Newest(all)| <= r < |all| ensures IdOf(all[r], groupBy) !in ids[..k] {
      assert ids[..k] <= ids[..|ids| - Spare(|ids|)];
    }
    KeptCompleteExactly(all, groupBy, execLimit);
  }

  /** If the jobs of every flow follow one another, only the last group can lose jobs. */
  lemma ContiguousLosesLast(all: seq<AppResult>, groupBy: GroupBy)
    requires Contiguous(all, groupBy)
    ensures var groups := |Ids(Newest(all), groupBy)|; NothingLost(all, groupBy, groups - Min(groups, 1))
  {
    var newest := Newest(all);
    var ids := Ids(newest, groupBy);
    var k := |ids| - Min(|ids|, 1);
    forall r | |newest| <= r < |all| ensures IdOf(all[r], groupBy) !in ids[..k] {
      forall i | 0 <= i < k ensures IdOf(all[r], groupBy) != ids[i] {
        var p, q := FirstJobs(newest, groupBy, i, |ids| - 1);
        GroupsAreIds(newest, groupBy);
        assert ids[i] != ids[|ids| - 1];
        assert all[p] == newest[p] && all[q] == newest[q];
      }
    }
  }

  /** If the jobs of every flow follow one another, every flow that is kept has all its jobs, also those that it
      would have lost had the query gone on. */
  lemma KeptAreComplete(all: seq<AppResult>, groupBy: GroupBy, execLimit: int)
    requires Contiguous(all, groupBy)
    ensures Complete(all, groupBy, Kept(|Ids(Newest(all), groupBy)|, |Newest(all)|, execLimit))
  {
    ContiguousLosesLast(all, groupBy);
    var ids := Ids(Newest(all), groupBy);
    assert ids[..|ids| - Spare(|ids|)] <= ids[..|ids| - Min(|ids|, 1)];
    SparedGroups(all, groupBy, execLimit);
  }

  lemma {:induction false} FirstId(jobs: seq<AppResult>, groupBy: GroupBy)
    requires jobs != []
    ensures Ids(jobs, groupBy) != [] && Ids(jobs, groupBy)[0] == IdOf(jobs[0], groupBy)
  {
    if |jobs| > 1 {
      FirstId(jobs[..|jobs| - 1], groupBy);
    }
  }

  /** Where flows overlap, a flow that is kept can lose a job: the newest and the oldest of 5001 jobs belong to one
      flow, all others to another. */
  lemma OverlapLosesJobs(newer: AppResult, other: AppResult) returns (all: seq<AppResult>)
    requires newer.flowExecId != other.flowExecId
    ensures var newest := Newest(all);
            var ids := Ids(newest, FlowExecutionId);
            && Kept(|ids|, |newest|, MAX_HISTORY_LIMIT) > 0
            && Having(newest, FlowExecutionId, ids[0]) != Having(all, FlowExecutionId, ids[0])
  {
    all := seq(JOB_HISTORY_LIMIT + 1, i => if i == 0 || i == JOB_HISTORY_LIMIT then newer else other);
    var newest := Newest(all);
    FirstId(newest, FlowExecutionId);
    GroupsAreIds(newest, FlowExecutionId);
    assert newest[0] == newer && newest[1] == other;
    assert all[JOB_HISTORY_LIMIT] == newer;
    GroupCutOff(all, JOB_HISTORY_LIMIT, FlowExecutionId, newer.flowExecId);
  }

  // ---------------------------------------------------------------- the graph of a flow's history

  lemma {:induction false} TotalFirst(job: AppResult, jobs: seq<AppResult>, weight: AppResult -> int)
    ensures Total([job] + jobs, weight) == weight(job) + Total(jobs, weight)
  {
    if jobs == [] {
      TotalMore([], job, weight);
      assert [job] + jobs == [] + [job];
    } else {
      TotalFirst(job, jobs[..|jobs| - 1], weight);
      assert ([job] + jobs)[..|jobs|] == [job] + jobs[..|jobs| - 1];
    }
  }

  lemma {:induction false} TotalReversed(jobs: seq<AppResult>, weight: AppResult -> int)
    ensures Total(Reversed(jobs), weight) == Total(jobs, weight)
  {
    if jobs != [] {
      var init, last := jobs[..|jobs| - 1], jobs[|jobs| - 1];
      TotalReversed(init, weight);
      TotalFirst(last, Reversed(init), weight);
      assert Reversed(jobs) == [last] + Reversed(init);
    }
  }

  function Score(job: AppResult): int { job.score }

  datatype JobScore = JobScore(jobScore: int, jobDefUrl: string, jobExecUrl: string)

  datatype Execution = Execution(flowTime: int, score: int, jobScores: seq<JobScore>)

  /** The record of a job within an execution. */
  function JobRecord(flowJobs: seq<AppResult>, jobDefId: string): JobScore
    requires Having(flowJobs, JobDefinitionId, jobDefId) != []
  {
    var jobs := Having(flowJobs, JobDefinitionId, jobDefId);
    JobScore(Total(jobs, Score), jobs[0].jobDefUrl, jobs[0].jobExecUrl)
  }

  /** What the record of an execution says about the flow's jobs, newest first: the time of the newest, the sum of
      all scores, and a record for every job in order of completion. */
  ghost predicate Records(execution: Execution, jobs: seq<AppResult>) {
    var inOrder := Reversed(jobs);
    var ids := Ids(inOrder, JobDefinitionId);
    && jobs != [] && execution.flowTime == jobs[0].finishTime
    && execution.score == Total(jobs, Score)
    && |execution.jobScores| == |ids|
    && forall i :: 0 <= i < |ids| ==>
                     Having(inOrder, JobDefinitionId, ids[i]) != []
                       && execution.jobScores[i] == JobRecord(inOrder, ids[i])
  }

  /** The newest jobs first. */
  ghost predicate NewestFirst(jobs: seq<AppResult>) {
    forall i, j :: 0 <= i < j < |jobs| ==> jobs[i].finishTime >= jobs[j].finishTime
  }

  /** The time of an execution is the time its last job finished, and the job that finished first comes first in it. */
  lemma FlowTimeIsLast(execution: Execution, jobs: seq<AppResult>)
    requires Records(execution, jobs) && NewestFirst(jobs)
    ensures forall job :: job in jobs ==> job.finishTime <= execution.flowTime
    ensures exists job :: job in jobs && job.finishTime == execution.flowTime
    ensures var first := jobs[|jobs| - 1];
            && execution.jobScores != [] && execution.jobScores[0].jobDefUrl == first.jobDefUrl
            && execution.jobScores[0].jobExecUrl == first.jobExecUrl
  {
    hide Ids, Having, Total, IdOf;
    var inOrder := Reversed(jobs);
    FirstId(inOrder, JobDefinitionId);
    FirstOfGroup(inOrder, JobDefinitionId);
    assert jobs[0] in jobs;
  }

  lemma {:induction false} FirstOfGroup(jobs: seq<AppResult>, groupBy: GroupBy)
    requires jobs != []
    ensures var group := Having(jobs, groupBy, IdOf(jobs[0], groupBy)); group != [] && group[0] == jobs[0]
  {
    if |jobs| > 1 { FirstOfGroup(jobs[..|jobs| - 1], groupBy); }
  }

  lemma GroupNewestFirst(jobs: seq<AppResult>, groupBy: GroupBy, id: string)
    requires NewestFirst(jobs)
    ensures NewestFirst(Having(jobs, groupBy, id))
  {
    var places := GroupKeepsOrder(jobs, groupBy, id);
  }

  /** Flows come in the order of their last jobs, the latest first. */
  lemma {:induction false} FlowsInOrder(jobs: seq<AppResult>, groupBy: GroupBy, i: nat, j: nat)
    requires NewestFirst(jobs) && i < j < |Ids(jobs, groupBy)|
    ensures var ids := Ids(jobs, groupBy);
            && Having(jobs, groupBy, ids[i]) != [] && Having(jobs, groupBy, ids[j]) != []
            && Having(jobs, groupBy, ids[i])[0].finishTime >= Having(jobs, groupBy, ids[j])[0].finishTime
  {
    hide IdOf, NewestFirst;
    var n := |jobs| - 1;
    var init, ids := jobs[..n], Ids(jobs[..n], groupBy);
    GroupsAreIds(init, groupBy);
    InitNewestFirst(jobs);
    assert ids[i] in ids;
    IdsOn(jobs, groupBy);
    FirstStays(jobs, groupBy, ids[i]);
    hide Having, Ids;
    if j < |ids| {
      assert ids[j] in ids;
      FirstStays(jobs, groupBy, ids[j]);
      FlowsInOrder(init, groupBy, i, j);
    } else {
      NewFlow(jobs, groupBy);
      InGroup(init, groupBy, ids[i], Having(init, groupBy, ids[i])[0]);
      EarlierIsNewer(jobs, Having(init, groupBy, ids[i])[0]);
    }
  }

  lemma InitNewestFirst(jobs: seq<AppResult>)
    requires jobs != [] && NewestFirst(jobs)
    ensures NewestFirst(jobs[..|jobs| - 1])
  {
  }

  lemma IdsOn(jobs: seq<AppResult>, groupBy: GroupBy)
    requires jobs != []
    ensures var ids, id := Ids(jobs[..|jobs| - 1], groupBy), IdOf(jobs[|jobs| - 1], groupBy);
            Ids(jobs, groupBy) == if id in ids then ids else ids + [id]
  {
  }

  lemma FirstStays(jobs: seq<AppResult>, groupBy: GroupBy, id: string)
    requires jobs != [] && Having(jobs[..|jobs| - 1], groupBy, id) != []
    ensures Having(jobs, groupBy, id) != []
    ensures Having(jobs, groupBy, id)[0] == Having(jobs[..|jobs| - 1], groupBy, id)[0]
  {
  }

  lemma NewFlow(jobs: seq<AppResult>, groupBy: GroupBy)
    requires jobs != [] && Having(jobs[..|jobs| - 1], groupBy, IdOf(jobs[|jobs| - 1], groupBy)) == []
    ensures Having(jobs, groupBy, IdOf(jobs[|jobs| - 1], groupBy)) == [jobs[|jobs| - 1]]
  {
  }

  lemma EarlierIsNewer(jobs: seq<AppResult>, job: AppResult)
    requires jobs != [] && NewestFirst(jobs) && job in jobs[..|jobs| - 1]
    ensures job.finishTime >= jobs[|jobs| - 1].finishTime
  {
  }

  /** The time at which the last job of a flow finished. */
  ghost predicate LatestOf(time: int, jobs: seq<AppResult>, flow: string) {
    && (forall job :: job in jobs && job.flowExecId == flow ==> job.finishTime <= time)
    && exists job :: job in jobs && job.flowExecId == flow && job.finishTime == time
  }

  /** Every record has the time of its flow's last job, and the records come in the order of these times. */
  ghost predicate Timeline(datasets: seq<Execution>, jobs: seq<AppResult>, ids: seq<string>) {
    && |datasets| <= |ids|
    && (forall j :: 0 <= j < |datasets| ==> LatestOf(datasets[j].flowTime, jobs, ids[|datasets| - 1 - j]))
    && (forall i, j :: 0 <= i < j < |datasets| ==> datasets[i].flowTime <= datasets[j].flowTime)
  }
}
