/** The loops behind the history pages. */
module History {
  import opened Basics
  import opened HistorySpec

  /** A linked hash map: keys stay in the order in which they were first put. */
  datatype LinkedMap<K(==,!new), V> = LinkedMap(keys: seq<K>, values: map<K, V>)
  {
    ghost predicate Valid() {
      && Distinct(keys)
      && forall k :: k in keys <==> k in values
    }

    function Put(k: K, v: V): (m: LinkedMap<K, V>)
      requires Valid()
      ensures m.Valid() && m.values == values[k := v] && m.keys == if k in keys then keys else keys + [k]
    {
      LinkedMap(if k in values then keys else keys + [k], values[k := v])
    }
  }

  /** The map is the grouping of the jobs: ids in the order of their first jobs, with the first job's url. */
  ghost predicate Groups(m: LinkedMap<IdUrlPair, seq<AppResult>>, jobs: seq<AppResult>, groupBy: GroupBy) {
    var ids := Ids(jobs, groupBy);
    && m.Valid() && |m.keys| == |ids|
    && forall i :: 0 <= i < |ids| ==>
                     var group := Having(jobs, groupBy, ids[i]);
                     && m.keys[i].id == ids[i] && m.values[m.keys[i]] == group
                     && group != [] && m.keys[i].url == UrlOf(group[0], groupBy)
  }

  /** The state of the first loop. */
  ghost predicate Grouping(groupMap: LinkedMap<string, seq<AppResult>>, idUrlMap: map<string, string>,
                           jobs: seq<AppResult>, groupBy: GroupBy) {
    && groupMap.Valid() && groupMap.keys == Ids(jobs, groupBy)
    && idUrlMap.Keys == groupMap.values.Keys
    && GroupsHeld(groupMap.values, idUrlMap, jobs, groupBy)
  }

  ghost predicate GroupsHeld(groups: map<string, seq<AppResult>>, idUrlMap: map<string, string>, jobs: seq<AppResult>,
                             groupBy: GroupBy)
    requires idUrlMap.Keys == groups.Keys
  {
    forall id :: id in groups ==>
                   groups[id] == Having(jobs, groupBy, id) != [] && idUrlMap[id] == UrlOf(groups[id][0], groupBy)
  }

  lemma GroupsHeldStep(groups: map<string, seq<AppResult>>, idUrlMap: map<string, string>, jobs: seq<AppResult>,
                       groupBy: GroupBy, job: AppResult)
    requires idUrlMap.Keys == groups.Keys && GroupsHeld(groups, idUrlMap, jobs, groupBy)
    requires IdOf(job, groupBy) in groups || Having(jobs, groupBy, IdOf(job, groupBy)) == []
    ensures var id := IdOf(job, groupBy);
            var group := (if id in groups then groups[id] else []) + [job];
            var urls := if id in idUrlMap then idUrlMap else idUrlMap[id := UrlOf(job, groupBy)];
            urls.Keys == groups[id := group].Keys && GroupsHeld(groups[id := group], urls, jobs + [job], groupBy)
  {
    OneMore(jobs, groupBy, job);
    hide Having, IdOf, UrlOf, Ids;
    var id := IdOf(job, groupBy);
    var group := (if id in groups then groups[id] else []) + [job];
    assert group == Having(jobs, groupBy, id) + [job];
  }

  lemma GroupingStep(groupMap: LinkedMap<string, seq<AppResult>>, idUrlMap: map<string, string>, jobs: seq<AppResult>,
                     groupBy: GroupBy, job: AppResult)
    requires Grouping(groupMap, idUrlMap, jobs, groupBy)
    ensures var id := IdOf(job, groupBy);
            var group := (if id in groupMap.values then groupMap.values[id] else []) + [job];
            var urls := if id in idUrlMap then idUrlMap else idUrlMap[id := UrlOf(job, groupBy)];
            Grouping(groupMap.Put(id, group), urls, jobs + [job], groupBy)
  {
    GroupsAreIds(jobs, groupBy);
    OneMore(jobs, groupBy, job);
    hide Ids, Having, IdOf, UrlOf, GroupsHeld, Distinct;
    assert IdOf(job, groupBy) in groupMap.values || Having(jobs, groupBy, IdOf(job, groupBy)) == [];
    GroupsHeldStep(groupMap.values, idUrlMap, jobs, groupBy, job);
  }

  lemma OneMore(jobs: seq<AppResult>, groupBy: GroupBy, job: AppResult)
    ensures var id, ids := IdOf(job, groupBy), Ids(jobs, groupBy);
            && Ids(jobs + [job], groupBy) == (if id in ids then ids else ids + [id])
            && Having(jobs + [job], groupBy, id) == Having(jobs, groupBy, id) + [job]
            && forall k :: k != id ==> Having(jobs + [job], groupBy, k) == Having(jobs, groupBy, k)
  {
    assert (jobs + [job])[..|jobs|] == jobs;
    forall k ensures Having(jobs, groupBy, k) + [] == Having(jobs, groupBy, k) {
    }
  }

  /** `groupJobs` */
  method GroupJobs(results: seq<AppResult>, groupBy: GroupBy) returns (resultMap: LinkedMap<IdUrlPair, seq<AppResult>>)
    ensures Groups(resultMap, results, groupBy)
    ensures forall pair :: pair in resultMap.keys ==> resultMap.values[pair] != []
    ensures forall pair :: pair in resultMap.keys ==>
              var first := resultMap.values[pair][0];
              pair == if groupBy.JobExecutionId? then IdUrlPair(first.jobExecId, first.jobExecUrl)
                      else if groupBy.JobDefinitionId? then IdUrlPair(first.jobDefId, first.jobDefUrl)
                      else IdUrlPair(first.flowExecId, first.flowExecUrl)
  {
    hide Grouping, IdOf, UrlOf;
    var groupMap := LinkedMap([], map[]);
    var idUrlMap := map[];
    GroupingStart(groupBy);
    for i := 0 to |results|
      invariant Grouping(groupMap, idUrlMap, results[..i], groupBy)
    {
      var result := results[i];
      var idField, urlField := IdOf(result, groupBy), UrlOf(result, groupBy);
      GroupingStep(groupMap, idUrlMap, results[..i], groupBy, result);
      GroupingValid(groupMap, idUrlMap, results[..i], groupBy);
      if idField !in idUrlMap {
        idUrlMap := idUrlMap[idField := urlField];
      }
      if idField in groupMap.values {
        groupMap := groupMap.Put(idField, groupMap.values[idField] + [result]);
      } else {
        assert [] + [result] == [result];
        groupMap := groupMap.Put(idField, [result]);
      }
      assert results[..i] + [result] == results[..i + 1];
    }
    assert results[..|results|] == results;
    resultMap := WithUrls(groupMap, idUrlMap, results, groupBy);
    KeysOfFirst(resultMap, results, groupBy);
  }

  lemma KeysOfFirst(m: LinkedMap<IdUrlPair, seq<AppResult>>, jobs: seq<AppResult>, groupBy: GroupBy)
    requires Groups(m, jobs, groupBy)
    ensures forall pair :: pair in m.keys ==> m.values[pair] != []
    ensures forall pair :: pair in m.keys ==>
              var first := m.values[pair][0];
              pair == if groupBy.JobExecutionId? then IdUrlPair(first.jobExecId, first.jobExecUrl)
                      else if groupBy.JobDefinitionId? then IdUrlPair(first.jobDefId, first.jobDefUrl)
                      else IdUrlPair(first.flowExecId, first.flowExecUrl)
  {
    forall pair | pair in m.keys
      ensures m.values[pair] != []
      ensures pair == IdUrlPair(IdOf(m.values[pair][0], groupBy), UrlOf(m.values[pair][0], groupBy))
    {
      var i :| 0 <= i < |m.keys| && m.keys[i] == pair;
      var group := m.values[pair];
      assert group == Having(jobs, groupBy, pair.id) && group[0] in group;
      InGroup(jobs, groupBy, pair.id, group[0]);
    }
  }

  lemma GroupingStart(groupBy: GroupBy)
    ensures Grouping(LinkedMap([], map[]), map[], [], groupBy)
  {
  }

  lemma GroupingValid(groupMap: LinkedMap<string, seq<AppResult>>, idUrlMap: map<string, string>, jobs: seq<AppResult>,
                      groupBy: GroupBy)
    requires Grouping(groupMap, idUrlMap, jobs, groupBy)
    ensures groupMap.Valid() && idUrlMap.Keys == groupMap.values.Keys
  {
  }

  /** The second loop of `groupJobs`. */
  method WithUrls(groupMap: LinkedMap<string, seq<AppResult>>, idUrlMap: map<string, string>,
                  ghost jobs: seq<AppResult>, ghost groupBy: GroupBy)
    returns (resultMap: LinkedMap<IdUrlPair, seq<AppResult>>)
    requires Grouping(groupMap, idUrlMap, jobs, groupBy)
    ensures Groups(resultMap, jobs, groupBy)
  {
    hide UrlOf, Having, Ids;
    resultMap := LinkedMap([], map[]);
    for i := 0 to |groupMap.keys|
      invariant resultMap.Valid() && |resultMap.keys| == i
      invariant forall l :: 0 <= l < i ==>
                              && resultMap.keys[l] == IdUrlPair(groupMap.keys[l], idUrlMap[groupMap.keys[l]])
                              && resultMap.values[resultMap.keys[l]] == groupMap.values[groupMap.keys[l]]
    {
      var key := groupMap.keys[i];
      assert IdUrlPair(key, idUrlMap[key]) !in resultMap.keys;
      resultMap := resultMap.Put(IdUrlPair(key, idUrlMap[key]), groupMap.values[key]);
    }
  }

  /** `limitHistoryResults` */
  method LimitHistoryResults<V>(m: LinkedMap<IdUrlPair, V>, size: nat,
                                execLimit: int) returns (kept: LinkedMap<IdUrlPair, V>)
    requires m.Valid()
    ensures kept.Valid() && kept.keys == m.keys[..Kept(|m.keys|, size, execLimit)]
    ensures size < 5000 ==> |kept.keys| == Min(|m.keys|, Max(execLimit, 0))
    ensures size >= 5000 && |m.keys| > 10 ==>
              |kept.keys| == if |m.keys| - 3 <= execLimit then |m.keys| - 3 else Max(execLimit, 0)
    ensures size >= 5000 && |m.keys| <= 10 ==> |kept.keys| == Max(|m.keys| - 1, 0)
    ensures forall k :: k in kept.keys ==> kept.values[k] == m.values[k]
  {
    var limit;
    if size < JOB_HISTORY_LIMIT {
      limit := execLimit;
    } else {
      if |m.keys| > 10 {
        limit := if |m.keys| > execLimit + 3 then execLimit else |m.keys| - 3;
      } else {
        limit := |m.keys| - 1;
      }
    }
    kept := FirstEntries(m, limit);
  }

  /** The loop of `limitHistoryResults`, which counts the entries from 1. */
  method FirstEntries<V>(m: LinkedMap<IdUrlPair, V>, limit: int) returns (kept: LinkedMap<IdUrlPair, V>)
    requires m.Valid()
    ensures kept.Valid() && kept.keys == m.keys[..Max(Min(limit, |m.keys|), 0)]
    ensures forall k :: k in kept.keys ==> kept.values[k] == m.values[k]
  {
    kept := LinkedMap([], map[]);
    var i := 1;
    while i <= |m.keys|
      invariant 1 <= i <= |m.keys| + 1 && i - 1 <= Max(limit, 0)
      invariant kept.Valid() && kept.keys == m.keys[..i - 1]
      invariant forall k :: k in kept.keys ==> kept.values[k] == m.values[k]
    {
      if i > limit {
        break;
      }
      var key := m.keys[i - 1];
      assert key !in kept.keys;
      kept := kept.Put(key, m.values[key]);
      assert m.keys[..i] == m.keys[..i - 1] + [key];
      i := i + 1;
    }
  }

  // ---------------------------------------------------------------- the graph of a flow's history

  method AddScores(jobs: seq<AppResult>) returns (score: int)
    ensures score == Total(jobs, Score)
  {
    score := 0;
    for i := 0 to |jobs|
      invariant score == Total(jobs[..i], Score)
    {
      score := score + jobs[i].score;
      assert jobs[..i + 1] == jobs[..i] + [jobs[i]];
      TotalMore(jobs[..i], jobs[i], Score);
    }
    assert jobs[..|jobs|] == jobs;
  }

  lemma RecordStep(jobs: seq<AppResult>, i: nat)
    requires i < |Ids(jobs, JobDefinitionId)|
    ensures var ids := Ids(jobs, JobDefinitionId);
            GroupTotal(ids[..i + 1], jobs, JobDefinitionId, Score) ==
            GroupTotal(ids[..i], jobs, JobDefinitionId, Score) + Total(Having(jobs, JobDefinitionId, ids[i]), Score)
  {
    var ids := Ids(jobs, JobDefinitionId);
    assert ids[..i + 1][..i] == ids[..i];
  }

  /** The jobs of one execution, added up job by job. */
  method AddJobs(inOrder: seq<AppResult>) returns (flowPerfScore: int, jobScores: seq<JobScore>)
    ensures flowPerfScore == Total(inOrder, Score)
    ensures var ids := Ids(inOrder, JobDefinitionId);
            && |jobScores| == |ids|
            && forall i :: 0 <= i < |ids| ==>
                             && Having(inOrder, JobDefinitionId, ids[i]) != []
                             && jobScores[i] == JobRecord(inOrder, ids[i])
  {
    var jobsByDef := GroupJobs(inOrder, JobDefinitionId);
    ghost var ids := Ids(inOrder, JobDefinitionId);
    hide Ids, Having, Total, GroupTotal;
    flowPerfScore, jobScores := 0, [];
    NothingYet(inOrder);
    for i := 0 to |jobsByDef.keys|
      invariant flowPerfScore == GroupTotal(ids[..i], inOrder, JobDefinitionId, Score)
      invariant |jobScores| == i
      invariant forall l :: 0 <= l < i ==> jobScores[l] == JobRecord(inOrder, ids[l])
    {
      var pair := jobsByDef.keys[i];
      var jobs := jobsByDef.values[pair];
      var jobPerfScore := AddScores(jobs);
      jobScores := jobScores + [JobScore(jobPerfScore, pair.url, jobs[0].jobExecUrl)];
      flowPerfScore := flowPerfScore + jobPerfScore;
      RecordStep(inOrder, i);
    }
    assert ids[..|ids|] == ids;
    GroupsConserve(inOrder, JobDefinitionId, Score);
  }

  lemma NothingYet(jobs: seq<AppResult>)
    ensures GroupTotal([], jobs, JobDefinitionId, Score) == 0
  {
  }

  /** The records of the first flows, the last of these flows first. */
  ghost predicate RecordsOf(datasets: seq<Execution>, jobs: seq<AppResult>, ids: seq<string>) {
    && |datasets| <= |ids|
    && forall j :: 0 <= j < |datasets| ==> Records(datasets[j], Having(jobs, FlowExecutionId, ids[|datasets| - 1 - j]))
  }

  lemma RecordsOfKept(datasets: seq<Execution>, kept: LinkedMap<IdUrlPair, seq<AppResult>>,
                      flows: LinkedMap<IdUrlPair, seq<AppResult>>, results: seq<AppResult>)
    requires Groups(flows, results, FlowExecutionId) && kept.Valid() && kept.keys <= flows.keys
    requires forall k :: k in kept.keys ==> kept.values[k] == flows.values[k]
    requires |datasets| == |kept.keys|
    requires forall j :: 0 <= j < |datasets| ==> Records(datasets[j], kept.values[kept.keys[|datasets| - 1 - j]])
    ensures RecordsOf(datasets, results, Ids(results, FlowExecutionId))
  {
    hide Records, Ids, Having;
    forall j | 0 <= j < |datasets|
      ensures Records(datasets[j], Having(results, FlowExecutionId, Ids(results, FlowExecutionId)[|datasets| - 1 - j]))
    {
      assert kept.keys[|datasets| - 1 - j] in kept.keys;
    }
  }

  lemma RecordsAreComplete(datasets: seq<Execution>, all: seq<AppResult>)
    requires |datasets| <= |Ids(Newest(all), FlowExecutionId)| && Complete(all, FlowExecutionId, |datasets|)
    requires RecordsOf(datasets, Newest(all), Ids(Newest(all), FlowExecutionId))
    ensures RecordsOf(datasets, all, Ids(Newest(all), FlowExecutionId))
  {
    hide Records, Ids, Having, Newest;
    var ids := Ids(Newest(all), FlowExecutionId);
    forall j | 0 <= j < |datasets|
      ensures Records(datasets[j], Having(all, FlowExecutionId, ids[|datasets| - 1 - j]))
    {
      var i := |datasets| - 1 - j;
      assert Having(Newest(all), FlowExecutionId, ids[i]) == Having(all, FlowExecutionId, ids[i]);
    }
  }

  lemma GroupsFilled(flows: LinkedMap<IdUrlPair, seq<AppResult>>, results: seq<AppResult>)
    requires Groups(flows, results, FlowExecutionId)
    ensures flows.Valid() && |flows.keys| == |Ids(results, FlowExecutionId)|
    ensures forall k :: k in flows.keys ==> flows.values[k] != []
  {
    hide Ids, Having;
  }

  lemma InTime(datasets: seq<Execution>, jobs: seq<AppResult>)
    requires RecordsOf(datasets, jobs, Ids(jobs, FlowExecutionId)) && NewestFirst(jobs)
    ensures Timeline(datasets, jobs, Ids(jobs, FlowExecutionId))
  {
    hide Records, Ids, Having, NewestFirst, LatestOf;
    var ids := Ids(jobs, FlowExecutionId);
    forall j | 0 <= j < |datasets| ensures LatestOf(datasets[j].flowTime, jobs, ids[|datasets| - 1 - j]) {
      OneInTime(datasets[j], jobs, ids[|datasets| - 1 - j]);
    }
    forall i, j | 0 <= i < j < |datasets| ensures datasets[i].flowTime <= datasets[j].flowTime {
      FlowsInOrder(jobs, FlowExecutionId, |datasets| - 1 - j, |datasets| - 1 - i);
      RecordTime(datasets[i], Having(jobs, FlowExecutionId, ids[|datasets| - 1 - i]));
      RecordTime(datasets[j], Having(jobs, FlowExecutionId, ids[|datasets| - 1 - j]));
    }
  }

  lemma RecordTime(execution: Execution, jobs: seq<AppResult>)
    requires Records(execution, jobs)
    ensures jobs != [] && execution.flowTime == jobs[0].finishTime
  {
  }

  lemma OneInTime(execution: Execution, jobs: seq<AppResult>, id: string)
    requires NewestFirst(jobs) && Records(execution, Having(jobs, FlowExecutionId, id))
    ensures LatestOf(execution.flowTime, jobs, id)
  {
    hide Records, Having, NewestFirst;
    GroupNewestFirst(jobs, FlowExecutionId, id);
    FlowTimeIsLast(execution, Having(jobs, FlowExecutionId, id));
    forall job ensures job in Having(jobs, FlowExecutionId, id) <==> job in jobs && job.flowExecId == id {
      InGroup(jobs, FlowExecutionId, id, job);
    }
  }

  lemma NewestSorted(all: seq<AppResult>)
    requires NewestFirst(all)
    ensures NewestFirst(Newest(all))
  {
  }

  lemma NewestIs(all: seq<AppResult>)
    ensures Newest(all) == all[..Min(|all|, 5000)]
  {
  }

  /** `restFlowGraphData`, behind its query for the newest jobs: a record for every execution that is kept, the
      earliest first. Where no job behind the cut belongs to one of them, and so where the jobs of every flow follow one
      another, each is made of all the flow's jobs. */
  method FlowGraph(all: seq<AppResult>) returns (datasets: seq<Execution>)
    ensures var ids := Ids(Newest(all), FlowExecutionId);
            && |datasets| == Kept(|ids|, |Newest(all)|, MAX_HISTORY_LIMIT) <= MAX_HISTORY_LIMIT
            && RecordsOf(datasets, Newest(all), ids)
            && Newest(all) == all[..Min(|all|, 5000)]
            && |datasets| == (if |all| < 5000 then Min(|ids|, 15) else if |ids| >= 18 then 15
                              else if |ids| > 10 then |ids| - 3 else Max(|ids| - 1, 0))
            && (NewestFirst(all) ==> Timeline(datasets, Newest(all), ids))
            && (NothingLost(all, FlowExecutionId, |datasets|) ==> RecordsOf(datasets, all, ids))
            && (Contiguous(all, FlowExecutionId) ==> RecordsOf(datasets, all, ids))
  {
    hide Ids, Having, Records, Contiguous, Limit, Newest, Groups, RecordsOf, NothingLost, Complete,
         NewestFirst, Timeline;
    var results := Newest(all);
    NewestIs(all);
    AtMostFifteen(|Ids(results, FlowExecutionId)|, |results|);
    KeptOf(|Ids(results, FlowExecutionId)|, |results|);
    var flows := GroupJobs(results, FlowExecutionId);
    GroupsFilled(flows, results);
    var kept := LimitHistoryResults(flows, |results|, MAX_HISTORY_LIMIT);
    datasets := Executions(kept);
    RecordsOfKept(datasets, kept, flows, results);
    if NewestFirst(all) {
      NewestSorted(all);
      InTime(datasets, results);
    }
    KeptCompleteExactly(all, FlowExecutionId, MAX_HISTORY_LIMIT);
    if Contiguous(all, FlowExecutionId) { KeptAreComplete(all, FlowExecutionId, MAX_HISTORY_LIMIT); }
    if Complete(all, FlowExecutionId, |datasets|) { RecordsAreComplete(datasets, all); }
  }

  /** The loop over the executions, from the earliest. */
  method Executions(flows: LinkedMap<IdUrlPair, seq<AppResult>>) returns (datasets: seq<Execution>)
    requires flows.Valid() && forall k :: k in flows.keys ==> flows.values[k] != []
    ensures |datasets| == |flows.keys|
    ensures forall j :: 0 <= j < |datasets| ==> Records(datasets[j], flows.values[flows.keys[|datasets| - 1 - j]])
  {
    hide Records;
    datasets := [];
    for i := |flows.keys| downto 0
      invariant |datasets| == |flows.keys| - i
      invariant forall j :: 0 <= j < |datasets| ==> Records(datasets[j], flows.values[flows.keys[|flows.keys| - 1 - j]])
    {
      var jobs := flows.values[flows.keys[i]];
      var record := RecordOf(jobs);
      datasets := datasets + [record];
    }
  }

  method RecordOf(jobs: seq<AppResult>) returns (execution: Execution)
    requires jobs != []
    ensures Records(execution, jobs)
  {
    hide Ids, Having, Total, JobRecord;
    var mrJobsList := Reversed(jobs);
    var flowPerfScore, jobScores := AddJobs(mrJobsList);
    TotalReversed(jobs, Score);
    execution := Execution(mrJobsList[|mrJobsList| - 1].finishTime, flowPerfScore, jobScores);
  }
}
