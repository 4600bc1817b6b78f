/**
 * The imperative scheduler of functions.py: `makespan`, `release_time` and
 * `create_schedule`, over arrays that the methods read and update in place.
 * Each method is proved to compute the pure definitions of the Timing and
 * Dispatch modules; `create_schedule` is proved to compute `Run`, so the
 * properties proved about `Run` hold of the arrays it leaves behind.
 */
module Scheduler {
  import opened Opt
  import opened Timing
  import opened Dispatch

  /**
   * `makespan`: the remaining work of every job — the sum of the durations of
   * the operations still in its queue. The queues are only read.
   */
  method Makespans(allJobs: array<seq<Op>>) returns (makespans: seq<nat>)
    ensures |makespans| == allJobs.Length
    ensures forall j :: 0 <= j < allJobs.Length ==> makespans[j] == Work(allJobs[j])
  {
    var ms := new nat[allJobs.Length](_ => 0);
    for job := 0 to allJobs.Length
      invariant forall q :: 0 <= q < job ==> ms[q] == Work(allJobs[q])
      invariant forall q :: job <= q < ms.Length ==> ms[q] == 0
    {
      var tasks := allJobs[job];
      for i := 0 to |tasks|
        invariant ms[job] == Work(tasks[..i])
        invariant forall q :: 0 <= q < job ==> ms[q] == Work(allJobs[q])
        invariant forall q :: job < q < ms.Length ==> ms[q] == 0
      {
        assert tasks[..i + 1][..i] == tasks[..i];
        ms[job] := ms[job] + tasks[i].1;
      }
      assert tasks[..|tasks|] == tasks;
    }
    makespans := ms[..];
  }

  /**
   * The total-makespan computation of `print_total_makespan`, without the
   * printing: sum the durations on every track, pauses included, then take
   * the largest sum (`None` on a schedule without machines).
   */
  method TotalMakespanOf(schedule: array<seq<Entry>>) returns (total: Option<nat>)
    ensures total == TotalMakespan(schedule[..])
  {
    var timePerMachine := new nat[schedule.Length](_ => 0);
    for i := 0 to schedule.Length
      invariant forall m :: 0 <= m < i ==> timePerMachine[m] == Total(schedule[m])
      invariant forall m :: i <= m < timePerMachine.Length ==> timePerMachine[m] == 0
    {
      var track := schedule[i];
      for j := 0 to |track|
        invariant timePerMachine[i] == Total(track[..j])
        invariant forall m :: 0 <= m < i ==> timePerMachine[m] == Total(schedule[m])
        invariant forall m :: i < m < timePerMachine.Length ==> timePerMachine[m] == 0
      {
        assert track[..j + 1][..j] == track[..j];
        timePerMachine[i] := timePerMachine[i] + track[j].d;
      }
      assert track[..|track|] == track;
    }
    assert timePerMachine[..] == MachineTimes(schedule[..]);
    total := Largest(timePerMachine[..]);
  }

  /**
   * `release_time`: for every job, the earliest time its next operation may
   * start — the latest completion time of any of its operations on the first
   * `machines` tracks, 0 if it has none. Every task on those tracks must name
   * a job below `jobs`, because the source indexes its result list by it.
   */
  method ReleaseTimes(jobs: nat, machines: nat, schedule: array<seq<Entry>>) returns (releaseTimes: seq<nat>)
    requires machines <= schedule.Length
    requires forall m, k :: 0 <= m < machines && 0 <= k < |schedule[m]| && schedule[m][k].Task? ==>
               schedule[m][k].job < jobs
    ensures |releaseTimes| == jobs
    ensures forall j :: 0 <= j < jobs ==> releaseTimes[j] == Release(schedule[..machines], j)
  {
    var rts := new nat[jobs](_ => 0);
    for i := 0 to machines
      invariant forall q :: 0 <= q < jobs ==> rts[q] == Release(schedule[..i], q)
    {
      var track := schedule[i];
      var rt := 0;
      for k := 0 to |track|
        invariant rt == Total(track[..k])
        invariant forall q :: 0 <= q < jobs ==> rts[q] == Max(Release(schedule[..i], q), TrackRelease(track[..k], q))
      {
        assert track[..k + 1][..k] == track[..k];
        if track[k].Task? {
          var job := track[k].job;
          TrackReleaseBounded(track[..k], job);
          if rts[job] < rt + track[k].d {
            rts[job] := rt + track[k].d;
          }
        }
        rt := rt + track[k].d;
      }
      assert track[..|track|] == track;
      assert schedule[..i + 1][..i] == schedule[..i];
    }
    assert schedule[..machines] == schedule[..][..machines];
    releaseTimes := rts[..];
  }

  /**
   * One round of `create_schedule`: pick the job with the most remaining
   * work, lowest index first; append its front operation to its machine's
   * track, after a pause when the job is released later than the track's
   * running time; delete the operation from the job's queue.
   */
  method DispatchOne(machines: nat, jobs: nat, schedule: array<seq<Entry>>, allJobs: array<seq<Op>>)
    requires schedule.Length == machines && allJobs.Length == jobs
    requires Valid(State(schedule[..], allJobs[..])) && Remaining(allJobs[..]) > 0
    modifies schedule, allJobs
    ensures State(schedule[..], allJobs[..]) == Step(old(State(schedule[..], allJobs[..])))
  {
    ghost var s := State(schedule[..], allJobs[..]);
    assert schedule[..machines] == s.schedule;
    NamesJobsAt(s.schedule, jobs);
    var releaseTimes := ReleaseTimes(jobs, machines, schedule);
    var makespans := Makespans(allJobs);
    assert makespans == Works(s.queues);
    PickAgrees(s.queues);
    StepUnfolds(s);
    var maxMsInd := FirstMaxIndex(makespans);
    var nextTask := allJobs[maxMsInd][0];
    var nextMachine := nextTask.0;
    var runtimeNextMachine := Total(schedule[nextMachine]);
    ghost var entries := NewEntries(releaseTimes[maxMsInd], runtimeNextMachine, maxMsInd, nextTask.1);
    var track := schedule[nextMachine];
    if releaseTimes[maxMsInd] > runtimeNextMachine {
      var pause := Pause(releaseTimes[maxMsInd] - runtimeNextMachine);
      track := track + [pause];
      track := track + [Task(maxMsInd, nextTask.1)];
      assert track == s.schedule[nextMachine] + entries;
    } else {
      track := track + [Task(maxMsInd, nextTask.1)];
    }
    schedule[nextMachine] := track;
    allJobs[maxMsInd] := allJobs[maxMsInd][1..];
    assert allJobs[..] == s.queues[maxMsInd := s.queues[maxMsInd][1..]];
  }

  /**
   * `create_schedule`: `jobs * machines` rounds of greedy dispatch. The jobs
   * must hold `jobs * machines` operations in all (as they do when every job
   * has `machines` of them, RemainingUniform), each on a machine below
   * `machines` and with a positive duration. The job queues are consumed in
   * place; the result has one track per machine and is exactly `Run` of the
   * initial state. Every queue ends empty, the tasks on the tracks are exactly
   * the original operations, and `placed[j][i]` locates operation `i` of job
   * `j`: on its own machine, starting no earlier than operation `i - 1` of the
   * same job completes.
   */
  method CreateSchedule(machines: nat, jobs: nat, allJobs: array<seq<Op>>)
    returns (schedule: array<seq<Entry>>, ghost placed: seq<seq<Pos>>)
    requires allJobs.Length == jobs
    requires Remaining(allJobs[..]) == jobs * machines
    requires forall j, i :: 0 <= j < jobs && 0 <= i < |allJobs[j]| ==>
               allJobs[j][i].0 < machines && allJobs[j][i].1 > 0
    modifies allJobs
    ensures fresh(schedule) && schedule.Length == machines
    ensures State(schedule[..], allJobs[..]) == Run(Init(old(allJobs[..]), machines), jobs * machines)
    ensures forall j :: 0 <= j < jobs ==> allJobs[j] == []
    ensures TaskBag(schedule[..]) == QueueBag(old(allJobs[..]))
    ensures Placed(old(allJobs[..]), State(schedule[..], allJobs[..]), placed)
    ensures forall j :: 0 <= j < jobs ==> |placed[j]| == |old(allJobs[j])|
    ensures InOrder(schedule[..], placed)
  {
    schedule := new seq<Entry>[machines](_ => []);
    ghost var orig := allJobs[..];
    assert schedule[..] == Init(orig, machines).schedule;
    InitValid(orig, machines);
    placed := InitTracked(orig, machines);
    placed := DispatchAll(machines, jobs, schedule, allJobs, orig, placed);
    ghost var final := State(schedule[..], allJobs[..]);
    DoneTracked(orig, final, placed);
  }

  /** The loop of `create_schedule`: as many rounds as there are operations. */
  method DispatchAll(machines: nat, jobs: nat, schedule: array<seq<Entry>>, allJobs: array<seq<Op>>,
                     ghost orig: seq<seq<Op>>, ghost placed0: seq<seq<Pos>>)
    returns (ghost placed: seq<seq<Pos>>)
    requires schedule.Length == machines && allJobs.Length == jobs
    requires State(schedule[..], allJobs[..]) == Init(orig, machines) && Valid(Init(orig, machines))
    requires Remaining(orig) == jobs * machines
    requires Tracked(orig, Init(orig, machines), placed0)
    modifies schedule, allJobs
    ensures State(schedule[..], allJobs[..]) == Run(Init(orig, machines), jobs * machines)
    ensures Tracked(orig, State(schedule[..], allJobs[..]), placed)
  {
    ghost var init := Init(orig, machines);
    placed := placed0;
    for step := 0 to jobs * machines
      invariant State(schedule[..], allJobs[..]) == Run(init, step)
      invariant Tracked(orig, State(schedule[..], allJobs[..]), placed)
    {
      ghost var before := State(schedule[..], allJobs[..]);
      DispatchOne(machines, jobs, schedule, allJobs);
      placed := StepTracked(orig, before, placed);
    }
  }
}
