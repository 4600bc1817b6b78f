/**
 * The greedy dispatcher of functions.py as a pure state machine.
 *
 * One step of `create_schedule` picks the job with the most remaining work
 * (lowest index among ties), takes the front operation of its queue, appends
 * it to its machine's track (after a pause when the job is released later than
 * the machine becomes free) and removes it from the queue. `Step` is that step
 * on values and `Run` repeats it; the imperative method in the Scheduler
 * module is proved to compute exactly `Run`, and the lemmas here say what
 * `Run` achieves.
 */
module Dispatch {
  import opened Timing

  /** An operation: the machine it must run on and its duration. */
  type Op = (nat, nat)

  /** Remaining work of a job: the sum of the durations of the operations still in its queue. */
  function Work(q: seq<Op>): nat
  {
    if |q| == 0 then 0 else Work(q[..|q| - 1]) + q[|q| - 1].1
  }

  /** Remaining work of every job, by job index. */
  function Works(qs: seq<seq<Op>>): seq<nat>
  {
    seq(|qs|, j requires 0 <= j < |qs| => Work(qs[j]))
  }

  /**
   * Index of the first maximal element: the value of `s.index(max(s))`.
   * Its contract determines the index uniquely, so the choice is deterministic.
   */
  function FirstMaxIndex(s: seq<nat>): (k: nat)
    requires |s| > 0
    ensures k < |s|
    ensures forall i :: 0 <= i < |s| ==> s[i] <= s[k]
    ensures forall i :: 0 <= i < k ==> s[i] < s[k]
  {
    if |s| == 1 then 0
    else
      var k := FirstMaxIndex(s[..|s| - 1]);
      if s[k] < s[|s| - 1] then |s| - 1 else k
  }

  /** Number of operations still queued, over all jobs. */
  function Remaining(qs: seq<seq<Op>>): nat
  {
    if |qs| == 0 then 0 else Remaining(qs[..|qs| - 1]) + |qs[|qs| - 1]|
  }

  /** The schedule built so far, one track per machine, and every job's queue of remaining operations. */
  datatype State = State(schedule: seq<seq<Entry>>, queues: seq<seq<Op>>)

  /** Operation `i` of queue `q` names an existing machine and has a positive duration. */
  ghost predicate OpFits(q: seq<Op>, i: nat, machines: nat)
    requires i < |q|
  {
    q[i].0 < machines && q[i].1 > 0
  }

  /** Every operation of a queue names an existing machine and has a positive duration. */
  ghost predicate JobFits(q: seq<Op>, machines: nat)
  {
    forall i :: 0 <= i < |q| ==> OpFits(q, i, machines)
  }

  ghost predicate QueuesFit(qs: seq<seq<Op>>, machines: nat)
  {
    forall j :: 0 <= j < |qs| ==> JobFits(qs[j], machines)
  }

  /** Entry `k` of track `t`, when it is a task, names an existing job. */
  ghost predicate NamesJob(t: seq<Entry>, k: nat, jobs: nat)
    requires k < |t|
  {
    t[k].Task? ==> t[k].job < jobs
  }

  /** Every task on a track names an existing job. */
  ghost predicate TrackNamesJobs(t: seq<Entry>, jobs: nat)
  {
    forall k :: 0 <= k < |t| ==> NamesJob(t, k, jobs)
  }

  ghost predicate TasksNameJobs(sched: seq<seq<Entry>>, jobs: nat)
  {
    forall m :: 0 <= m < |sched| ==> TrackNamesJobs(sched[m], jobs)
  }

  ghost predicate Valid(s: State)
  {
    QueuesFit(s.queues, |s.schedule|) && TasksNameJobs(s.schedule, |s.queues|)
  }

  /** The state `create_schedule` starts from: one empty track per machine. */
  function Init(jobs: seq<seq<Op>>, machines: nat): State
  {
    State(seq(machines, _ => []), jobs)
  }

  /**
   * The job the dispatcher picks: the first job whose remaining work is
   * maximal (PickIsFirstMax), i.e. `makespans.index(max(makespans))`.
   */
  function Pick(qs: seq<seq<Op>>): (k: nat)
    requires |qs| > 0
    ensures k < |qs|
  {
    if |qs| == 1 then 0
    else
      var k := Pick(qs[..|qs| - 1]);
      if Work(qs[k]) < Work(qs[|qs| - 1]) then |qs| - 1 else k
  }

  function Chosen(s: State): nat
    requires |s.queues| > 0
  {
    Pick(s.queues)
  }

  // ---------------------------------------------------------------------
  // Remaining work and remaining operations

  /** Taking the front operation off a queue lowers its remaining work by that operation's duration. */
  lemma {:induction false} WorkFront(q: seq<Op>)
    requires |q| > 0
    ensures Work(q) == q[0].1 + Work(q[1..])
  {
    if |q| > 1 {
      assert q[1..][..|q[1..]| - 1] == q[..|q| - 1][1..];
      WorkFront(q[..|q| - 1]);
    }
  }

  /** With positive durations, a job has remaining work exactly when its queue is not empty. */
  lemma WorkPositive(q: seq<Op>, machines: nat)
    requires JobFits(q, machines)
    ensures Work(q) > 0 <==> |q| > 0
  {
    if |q| > 0 {
      assert OpFits(q, |q| - 1, machines);
    }
  }

  lemma {:induction false} RemainingUpdate(qs: seq<seq<Op>>, j: nat, q: seq<Op>)
    requires j < |qs|
    ensures Remaining(qs[j := q]) + |qs[j]| == Remaining(qs) + |q|
  {
    var n := |qs| - 1;
    assert qs[j := q][..n] == if j < n then qs[..n][j := q] else qs[..n];
    if j < n {
      RemainingUpdate(qs[..n], j, q);
    }
  }

  /** No operation is left exactly when every queue is empty. */
  lemma {:induction false} RemainingZero(qs: seq<seq<Op>>)
    ensures Remaining(qs) == 0 <==> forall j :: 0 <= j < |qs| ==> qs[j] == []
  {
    if |qs| > 0 {
      var n := |qs| - 1;
      RemainingZero(qs[..n]);
      assert forall j :: 0 <= j < n ==> qs[..n][j] == qs[j];
    }
  }

  /** When every job has `machines` operations there are `jobs * machines` of them. */
  lemma {:induction false} RemainingUniform(qs: seq<seq<Op>>, machines: nat)
    requires forall j :: 0 <= j < |qs| ==> |qs[j]| == machines
    ensures Remaining(qs) == |qs| * machines
  {
    if |qs| > 0 {
      RemainingUniform(qs[..|qs| - 1], machines);
    }
  }

  /** `Pick` chooses a job whose remaining work is maximal, and the lowest-numbered such job. */
  lemma {:induction false} PickIsFirstMax(qs: seq<seq<Op>>)
    requires |qs| > 0
    ensures forall i :: 0 <= i < |qs| ==> Work(qs[i]) <= Work(qs[Pick(qs)])
    ensures forall i :: 0 <= i < Pick(qs) ==> Work(qs[i]) < Work(qs[Pick(qs)])
  {
    if |qs| > 1 {
      var p := qs[..|qs| - 1];
      PickIsFirstMax(p);
      assert forall i :: 0 <= i < |p| ==> p[i] == qs[i];
    }
  }

  /**
   * Tie-breaking is deterministic: taking the index of the first maximum of
   * the list of remaining work, as the source does, gives exactly `Pick`.
   */
  lemma PickAgrees(qs: seq<seq<Op>>)
    requires |qs| > 0
    ensures FirstMaxIndex(Works(qs)) == Pick(qs)
  {
    PickIsFirstMax(qs);
    var w := Works(qs);
    var a, b := FirstMaxIndex(w), Pick(qs);
    assert w[a] <= w[b] && w[b] <= w[a];
  }

  /** While operations remain, the picked job still has an operation. */
  lemma PickNonEmpty(qs: seq<seq<Op>>, machines: nat)
    requires QueuesFit(qs, machines) && Remaining(qs) > 0
    ensures |qs| > 0 && qs[Pick(qs)] != []
    ensures qs[Pick(qs)][0].0 < machines && qs[Pick(qs)][0].1 > 0
  {
    RemainingZero(qs);
    var j :| 0 <= j < |qs| && qs[j] != [];
    PickIsFirstMax(qs);
    WorkPositive(qs[j], machines);
    WorkPositive(qs[Pick(qs)], machines);
    assert OpFits(qs[Pick(qs)], 0, machines);
  }

  // ---------------------------------------------------------------------
  // One step and many

  /**
   * What a step appends to the machine's track: the task alone when the job
   * is released no later than the machine's running time, otherwise a pause
   * that bridges the difference and then the task.
   */
  function NewEntries(release: nat, runtime: nat, job: nat, d: nat): seq<Entry>
  {
    if release > runtime then [Pause(release - runtime), Task(job, d)] else [Task(job, d)]
  }

  /** One iteration of the dispatch loop. */
  function Step(s: State): (r: State)
    requires Valid(s) && Remaining(s.queues) > 0
    ensures Valid(r)
    ensures |r.schedule| == |s.schedule| && |r.queues| == |s.queues|
    ensures Remaining(r.queues) == Remaining(s.queues) - 1
  {
    PickNonEmpty(s.queues, |s.schedule|);
    var j := Chosen(s);
    var q := s.queues[j];
    var op := q[0];
    var m := op.0;
    var release := Release(s.schedule, j);
    var runtime := Total(s.schedule[m]);
    var t := s.schedule[m] + NewEntries(release, runtime, j, op.1);
    RemainingUpdate(s.queues, j, q[1..]);
    assert JobFits(q[1..], |s.schedule|) by {
      forall i | 0 <= i < |q| - 1
        ensures OpFits(q[1..], i, |s.schedule|)
      {
        assert OpFits(q, i + 1, |s.schedule|);
      }
    }
    assert TrackNamesJobs(t, |s.queues|) by {
      forall k | 0 <= k < |t|
        ensures NamesJob(t, k, |s.queues|)
      {
        if k < |s.schedule[m]| {
          assert NamesJob(s.schedule[m], k, |s.queues|);
        }
      }
    }
    State(s.schedule[m := t], s.queues[j := q[1..]])
  }

  /** The state after `n` iterations of the dispatch loop. */
  function Run(s: State, n: nat): (r: State)
    requires Valid(s) && n <= Remaining(s.queues)
    ensures Valid(r)
    ensures |r.schedule| == |s.schedule| && |r.queues| == |s.queues|
    ensures Remaining(r.queues) == Remaining(s.queues) - n
  {
    if n == 0 then s else Step(Run(s, n - 1))
  }

  /** The step written out, for callers that follow it statement by statement. */
  lemma StepUnfolds(s: State)
    requires Valid(s) && Remaining(s.queues) > 0
    ensures |s.queues| > 0 && s.queues[Chosen(s)] != [] && s.queues[Chosen(s)][0].0 < |s.schedule|
    ensures var j := Chosen(s);
      var op := s.queues[j][0];
      var entries := NewEntries(Release(s.schedule, j), Total(s.schedule[op.0]), j, op.1);
      Step(s) == State(s.schedule[op.0 := s.schedule[op.0] + entries], s.queues[j := s.queues[j][1..]])
  {
    PickNonEmpty(s.queues, |s.schedule|);
  }

  /** Every task on every track names an existing job, stated pointwise. */
  lemma NamesJobsAt(sched: seq<seq<Entry>>, jobs: nat)
    requires TasksNameJobs(sched, jobs)
    ensures forall m, k :: 0 <= m < |sched| && 0 <= k < |sched[m]| && sched[m][k].Task? ==> sched[m][k].job < jobs
  {
    forall m, k | 0 <= m < |sched| && 0 <= k < |sched[m]| && sched[m][k].Task?
      ensures sched[m][k].job < jobs
    {
      assert TrackNamesJobs(sched[m], jobs);
      assert NamesJob(sched[m], k, jobs);
    }
  }

  /**
   * The step picks the job with maximal remaining work, the lowest index among
   * ties, whose queue is not empty, and removes exactly that job's front
   * operation; every other queue is unchanged.
   */
  lemma StepPicks(s: State)
    requires Valid(s) && Remaining(s.queues) > 0
    ensures |s.queues| > 0
    ensures var j := Chosen(s);
      && j < |s.queues| && s.queues[j] != []
      && (forall k :: 0 <= k < |s.queues| ==> Work(s.queues[k]) <= Work(s.queues[j]))
      && (forall k :: 0 <= k < j ==> Work(s.queues[k]) < Work(s.queues[j]))
      && Step(s).queues == s.queues[j := s.queues[j][1..]]
  {
    PickNonEmpty(s.queues, |s.schedule|);
    PickIsFirstMax(s.queues);
  }

  /**
   * The step changes only the track of the front operation's machine `m`. It
   * appends the task alone when the job is released no later than the machine
   * is free, and otherwise a pause of exactly the (positive) difference and
   * then the task. The task starts at the larger of the job's release time and
   * the machine's running time, so never before the job's earlier operations
   * have completed, and the track then lasts that long plus the task's duration.
   */
  lemma StepPlaces(s: State)
    requires Valid(s) && Remaining(s.queues) > 0
    ensures |s.queues| > 0 && s.queues[Chosen(s)] != [] && s.queues[Chosen(s)][0].0 < |s.schedule|
    ensures var j := Chosen(s);
      var op := s.queues[j][0];
      var m := op.0;
      var release := Release(s.schedule, j);
      var runtime := Total(s.schedule[m]);
      var t := Step(s).schedule[m];
      && m < |s.schedule|
      && (forall i :: 0 <= i < |s.schedule| && i != m ==> Step(s).schedule[i] == s.schedule[i])
      && t == s.schedule[m] + NewEntries(release, runtime, j, op.1)
      && (release > runtime ==> t == s.schedule[m] + [Pause(release - runtime), Task(j, op.1)])
      && (release <= runtime ==> t == s.schedule[m] + [Task(j, op.1)])
      && Start(t, |t| - 1) == Max(release, runtime)
      && Total(t) == Max(release, runtime) + op.1
  {
    PickNonEmpty(s.queues, |s.schedule|);
    var j := Chosen(s);
    var op := s.queues[j][0];
    var m := op.0;
    var u := s.schedule[m];
    var release := Release(s.schedule, j);
    var runtime := Total(u);
    var t := Step(s).schedule[m];
    EndIsNextStart(t, |t| - 1);
    assert t[..|t|] == t;
    if release > runtime {
      assert t[..|t| - 1] == u + [Pause(release - runtime)];
      assert (u + [Pause(release - runtime)])[..|u|] == u;
    } else {
      assert t[..|t| - 1] == u;
    }
  }

  /**
   * After the step the chosen job is released when its new task completes,
   * and every other job keeps its release time.
   */
  lemma StepReleases(s: State)
    requires Valid(s) && Remaining(s.queues) > 0
    ensures |s.queues| > 0 && s.queues[Chosen(s)] != [] && s.queues[Chosen(s)][0].0 < |s.schedule|
    ensures var j := Chosen(s);
      var op := s.queues[j][0];
      var runtime := Total(s.schedule[op.0]);
      && Release(Step(s).schedule, j) == Max(Release(s.schedule, j), runtime) + op.1
      && forall q :: q != j ==> Release(Step(s).schedule, q) == Release(s.schedule, q)
  {
    StepPlaces(s);
    var j := Chosen(s);
    var m := s.queues[j][0].0;
    var t := Step(s).schedule[m];
    assert Step(s).schedule == s.schedule[m := t];
    assert TrackRelease(t, j) == Total(t);
    ReleaseReplaceRaise(s.schedule, m, t, j);
    forall q | q != j
      ensures Release(Step(s).schedule, q) == Release(s.schedule, q)
    {
      var u := s.schedule[m];
      if |t| == |u| + 2 {
        assert t[..|t| - 1] == u + [Pause(t[|u|].d)];
        assert (u + [Pause(t[|u|].d)])[..|u|] == u;
      } else {
        assert t[..|t| - 1] == u;
      }
      ReleaseReplaceSame(s.schedule, m, t, q);
    }
  }

  // ---------------------------------------------------------------------
  // Order: where each original operation went

  /** A place on the schedule: a machine and an index into its track. */
  type Pos = (nat, nat)

  ghost predicate At(sched: seq<seq<Entry>>, p: Pos)
  {
    p.0 < |sched| && p.1 < |sched[p.0]|
  }

  /** Start time of the entry at `p` (0 off the schedule). */
  ghost function Begins(sched: seq<seq<Entry>>, p: Pos): nat
  {
    if At(sched, p) then Start(sched[p.0], p.1) else 0
  }

  /** Completion time of the entry at `p` (0 off the schedule). */
  ghost function Ends(sched: seq<seq<Entry>>, p: Pos): nat
  {
    if At(sched, p) then End(sched[p.0], p.1) else 0
  }

  /**
   * `pl[j][i]` is where operation `i` of the original job `j` was placed: on
   * the track of its own machine, as a task of job `j` with its own duration.
   * The operations placed so far are exactly the ones gone from the front of
   * the job's queue.
   */
  ghost predicate Placed(orig: seq<seq<Op>>, s: State, pl: seq<seq<Pos>>)
  {
    && |pl| == |orig| == |s.queues|
    && (forall j :: 0 <= j < |orig| ==> |pl[j]| <= |orig[j]| && s.queues[j] == orig[j][|pl[j]|..])
    && (forall j, i :: 0 <= j < |orig| && 0 <= i < |pl[j]| && i < |orig[j]| ==>
          && At(s.schedule, pl[j][i])
          && pl[j][i].0 == orig[j][i].0
          && s.schedule[pl[j][i].0][pl[j][i].1] == Task(j, orig[j][i].1))
  }

  /** Every placed operation starts no earlier than the previous operation of its job completes. */
  ghost predicate InOrder(sched: seq<seq<Entry>>, pl: seq<seq<Pos>>)
  {
    forall j, i :: 0 <= j < |pl| && 0 < i < |pl[j]| ==> Ends(sched, pl[j][i - 1]) <= Begins(sched, pl[j][i])
  }

  /** Each job is released when its most recently placed operation completes. */
  ghost predicate Released(sched: seq<seq<Entry>>, pl: seq<seq<Pos>>)
  {
    forall j :: 0 <= j < |pl| ==> Release(sched, j) == if |pl[j]| == 0 then 0 else Ends(sched, pl[j][|pl[j]| - 1])
  }

  /** Every track of `b` extends the same track of `a`. */
  ghost predicate Extends(a: seq<seq<Entry>>, b: seq<seq<Entry>>)
  {
    |a| == |b| && forall m :: 0 <= m < |a| ==> |a[m]| <= |b[m]| && b[m][..|a[m]|] == a[m]
  }

  ghost predicate AllAt(sched: seq<seq<Entry>>, pl: seq<seq<Pos>>)
  {
    forall j, i :: 0 <= j < |pl| && 0 <= i < |pl[j]| ==> At(sched, pl[j][i])
  }

  /** Extending tracks moves no existing entry and changes none of their times. */
  lemma ExtendsKeepsTimes(a: seq<seq<Entry>>, b: seq<seq<Entry>>, p: Pos)
    requires Extends(a, b) && At(a, p)
    ensures At(b, p) && b[p.0][p.1] == a[p.0][p.1]
    ensures Begins(b, p) == Begins(a, p) && Ends(b, p) == Ends(a, p)
  {
    var (u, v) := (a[p.0], b[p.0]);
    assert v[..|u|] == u;
    assert v[..p.1] == u[..p.1];
    assert v[..p.1 + 1] == u[..p.1 + 1];
  }

  lemma PlacedStill(orig: seq<seq<Op>>, s: State, r: State, pl: seq<seq<Pos>>, j: nat, np: Pos)
    requires Placed(orig, s, pl) && Extends(s.schedule, r.schedule)
    requires j < |pl| && s.queues[j] != []
    requires r.queues == s.queues[j := s.queues[j][1..]]
    requires At(r.schedule, np) && np.0 == s.queues[j][0].0 && r.schedule[np.0][np.1] == Task(j, s.queues[j][0].1)
    ensures Placed(orig, r, pl[j := pl[j] + [np]])
  {
    var n := |pl[j]|;
    var pl' := pl[j := pl[j] + [np]];
    assert s.queues[j] == orig[j][n..];
    assert s.queues[j][0] == orig[j][n];
    assert r.queues[j] == orig[j][n + 1..];
    forall q, i | 0 <= q < |orig| && 0 <= i < |pl'[q]| && i < |orig[q]|
      ensures && At(r.schedule, pl'[q][i])
              && pl'[q][i].0 == orig[q][i].0
              && r.schedule[pl'[q][i].0][pl'[q][i].1] == Task(q, orig[q][i].1)
    {
      if q != j || i < n {
        assert pl'[q][i] == pl[q][i];
        ExtendsKeepsTimes(s.schedule, r.schedule, pl[q][i]);
      }
    }
  }

  lemma InOrderStill(s: seq<seq<Entry>>, r: seq<seq<Entry>>, pl: seq<seq<Pos>>, j: nat, np: Pos)
    requires InOrder(s, pl) && AllAt(s, pl) && Extends(s, r) && j < |pl|
    requires |pl[j]| > 0 ==> Ends(s, pl[j][|pl[j]| - 1]) <= Begins(r, np)
    ensures InOrder(r, pl[j := pl[j] + [np]])
  {
    var pl' := pl[j := pl[j] + [np]];
    forall q, i | 0 <= q < |pl'| && 0 < i < |pl'[q]|
      ensures Ends(r, pl'[q][i - 1]) <= Begins(r, pl'[q][i])
    {
      ExtendsKeepsTimes(s, r, pl[q][i - 1]);
      if q != j || i < |pl[j]| {
        ExtendsKeepsTimes(s, r, pl[q][i]);
      }
    }
  }

  lemma ReleasedStill(s: seq<seq<Entry>>, r: seq<seq<Entry>>, pl: seq<seq<Pos>>, j: nat, np: Pos)
    requires Released(s, pl) && AllAt(s, pl) && Extends(s, r) && j < |pl|
    requires Release(r, j) == Ends(r, np)
    requires forall q :: q != j ==> Release(r, q) == Release(s, q)
    ensures Released(r, pl[j := pl[j] + [np]])
  {
    var pl' := pl[j := pl[j] + [np]];
    forall q | 0 <= q < |pl'|
      ensures Release(r, q) == if |pl'[q]| == 0 then 0 else Ends(r, pl'[q][|pl'[q]| - 1])
    {
      if q != j && |pl[q]| > 0 {
        ExtendsKeepsTimes(s, r, pl[q][|pl[q]| - 1]);
      }
    }
  }

  /**
   * Moving the front operation of job `j` onto the schedule at `np`, after
   * the job's release time, extends the placement of `j` by `np` and keeps
   * placement, order and release times.
   */
  lemma PlaceNext(orig: seq<seq<Op>>, s: State, r: State, pl: seq<seq<Pos>>, j: nat, np: Pos)
    requires Placed(orig, s, pl) && InOrder(s.schedule, pl) && Released(s.schedule, pl)
    requires j < |pl| && s.queues[j] != [] && r.queues == s.queues[j := s.queues[j][1..]]
    requires Extends(s.schedule, r.schedule)
    requires At(r.schedule, np) && np.0 == s.queues[j][0].0 && r.schedule[np.0][np.1] == Task(j, s.queues[j][0].1)
    requires Release(s.schedule, j) <= Begins(r.schedule, np)
    requires Release(r.schedule, j) == Ends(r.schedule, np)
    requires forall q :: q != j ==> Release(r.schedule, q) == Release(s.schedule, q)
    ensures var pl' := pl[j := pl[j] + [np]];
      Placed(orig, r, pl') && InOrder(r.schedule, pl') && Released(r.schedule, pl')
  {
    assert AllAt(s.schedule, pl);
    PlacedStill(orig, s, r, pl, j, np);
    InOrderStill(s.schedule, r.schedule, pl, j, np);
    ReleasedStill(s.schedule, r.schedule, pl, j, np);
  }

  /**
   * A step moves the chosen job's front operation to the end of its machine's
   * track, at `np`: the other tracks and queues stay as they were, the task
   * starts no earlier than the job was released, and the job is then released
   * when it completes.
   */
  lemma StepMoves(s: State) returns (j: nat, np: Pos)
    requires Valid(s) && Remaining(s.queues) > 0
    ensures |s.queues| > 0 && j == Chosen(s) && s.queues[j] != [] && s.queues[j][0].0 < |s.schedule|
    ensures np == (s.queues[j][0].0, |Step(s).schedule[s.queues[j][0].0]| - 1)
    ensures Step(s).queues == s.queues[j := s.queues[j][1..]]
    ensures Extends(s.schedule, Step(s).schedule)
    ensures At(Step(s).schedule, np) && Step(s).schedule[np.0][np.1] == Task(j, s.queues[j][0].1)
    ensures Release(s.schedule, j) <= Begins(Step(s).schedule, np)
    ensures Release(Step(s).schedule, j) == Ends(Step(s).schedule, np)
    ensures forall q :: q != j ==> Release(Step(s).schedule, q) == Release(s.schedule, q)
  {
    StepPicks(s);
    StepPlaces(s);
    StepReleases(s);
    var r := Step(s);
    j := Chosen(s);
    var m := s.queues[j][0].0;
    var t := r.schedule[m];
    np := (m, |t| - 1);
    assert Extends(s.schedule, r.schedule) by {
      assert t[..|s.schedule[m]|] == s.schedule[m];
    }
    assert Ends(r.schedule, np) == Total(t) by {
      assert t[..|t| - 1 + 1] == t;
    }
  }

  /** One step extends the placement of the chosen job by the position of its new task. */
  lemma StepKeepsOrder(orig: seq<seq<Op>>, s: State, pl: seq<seq<Pos>>) returns (pl': seq<seq<Pos>>)
    requires Valid(s) && Remaining(s.queues) > 0
    requires Placed(orig, s, pl) && InOrder(s.schedule, pl) && Released(s.schedule, pl)
    ensures |s.queues| > 0 && s.queues[Chosen(s)] != [] && s.queues[Chosen(s)][0].0 < |s.schedule|
    ensures var j := Chosen(s);
      var m := s.queues[j][0].0;
      pl' == pl[j := pl[j] + [(m, |Step(s).schedule[m]| - 1)]]
    ensures Placed(orig, Step(s), pl') && InOrder(Step(s).schedule, pl') && Released(Step(s).schedule, pl')
  {
    var j, np := StepMoves(s);
    PlaceNext(orig, s, Step(s), pl, j, np);
    pl' := pl[j := pl[j] + [np]];
  }

  /** The initial state is valid when every operation names an existing machine and has a positive duration. */
  lemma InitValid(orig: seq<seq<Op>>, machines: nat)
    requires forall j, i :: 0 <= j < |orig| && 0 <= i < |orig[j]| ==> orig[j][i].0 < machines && orig[j][i].1 > 0
    ensures Valid(Init(orig, machines))
  {
    forall j | 0 <= j < |orig|
      ensures JobFits(orig[j], machines)
    {
      forall i | 0 <= i < |orig[j]|
        ensures OpFits(orig[j], i, machines)
      {
      }
    }
  }

  /** In the initial state nothing is placed yet and every job is released at time 0. */
  lemma InitPlaced(orig: seq<seq<Op>>, machines: nat) returns (pl: seq<seq<Pos>>)
    ensures |pl| == |orig| && forall j :: 0 <= j < |pl| ==> pl[j] == []
    ensures var init := Init(orig, machines);
      Placed(orig, init, pl) && InOrder(init.schedule, pl) && Released(init.schedule, pl)
  {
    var init := Init(orig, machines);
    pl := seq(|orig|, _ => []);
    forall q | 0 <= q < |orig|
      ensures Release(init.schedule, q) == 0
    {
      ReleaseOfEmpty(init.schedule, q);
    }
    assert forall q :: 0 <= q < |orig| ==> orig[q][0..] == orig[q];
  }

  // ---------------------------------------------------------------------
  // Conservation: the multiset of operations

  /** An operation tagged with its job: (job, machine, duration). */
  type Slot = (nat, nat, nat)

  /** The tasks on track `t` of machine `m`, as tagged operations. */
  function TrackBag(t: seq<Entry>, m: nat): multiset<Slot>
  {
    if |t| == 0 then multiset{}
    else
      var e := t[|t| - 1];
      TrackBag(t[..|t| - 1], m) + if e.Task? then multiset{(e.job, m, e.d)} else multiset{}
  }

  /** Every task on the schedule, as tagged operations. */
  function TaskBag(sched: seq<seq<Entry>>): multiset<Slot>
  {
    if |sched| == 0 then multiset{}
    else TaskBag(sched[..|sched| - 1]) + TrackBag(sched[|sched| - 1], |sched| - 1)
  }

  /** The operations of job `j`'s queue `q`, as tagged operations. */
  function JobBag(q: seq<Op>, j: nat): multiset<Slot>
  {
    if |q| == 0 then multiset{} else multiset{(j, q[0].0, q[0].1)} + JobBag(q[1..], j)
  }

  /** Every queued operation, as tagged operations. */
  function QueueBag(qs: seq<seq<Op>>): multiset<Slot>
  {
    if |qs| == 0 then multiset{}
    else QueueBag(qs[..|qs| - 1]) + JobBag(qs[|qs| - 1], |qs| - 1)
  }

  /** Every operation of a state, wherever it is: on a track or still in a queue. */
  function Bag(s: State): multiset<Slot>
  {
    TaskBag(s.schedule) + QueueBag(s.queues)
  }

  /** Rearranging the two cases of a replacement inside a sum of bags. */
  lemma MultisetShuffle<T>(a: multiset<T>, x: multiset<T>, b: multiset<T>, y: multiset<T>, was: multiset<T>, now: multiset<T>, inPrefix: bool)
    requires inPrefix ==> a + was == b + now && x == y
    requires !inPrefix ==> a == b && x == now && y == was
    ensures (a + x) + was == (b + y) + now
  {
    forall o ensures ((a + x) + was)[o] == ((b + y) + now)[o] {
      if inPrefix {
        assert (a + was)[o] == (b + now)[o];
      }
    }
  }

  lemma {:induction false} TaskBagUpdate(sched: seq<seq<Entry>>, m: nat, u: seq<Entry>)
    requires m < |sched|
    ensures TaskBag(sched[m := u]) + TrackBag(sched[m], m) == TaskBag(sched) + TrackBag(u, m)
  {
    var n := |sched| - 1;
    var after := sched[m := u];
    var (a, x) := (TaskBag(after[..n]), TrackBag(after[n], n));
    var (b, y) := (TaskBag(sched[..n]), TrackBag(sched[n], n));
    assert TaskBag(after) == a + x;
    assert TaskBag(sched) == b + y;
    if m < n {
      assert after[..n] == sched[..n][m := u];
      assert after[n] == sched[n];
      TaskBagUpdate(sched[..n], m, u);
      assert a + TrackBag(sched[m], m) == b + TrackBag(u, m);
      assert x == y;
    } else {
      assert after[..n] == sched[..n];
      assert after[n] == u;
    }
    MultisetShuffle(a, x, b, y, TrackBag(sched[m], m), TrackBag(u, m), m < n);
  }

  lemma {:induction false} QueueBagUpdate(qs: seq<seq<Op>>, j: nat, q: seq<Op>)
    requires j < |qs|
    ensures QueueBag(qs[j := q]) + JobBag(qs[j], j) == QueueBag(qs) + JobBag(q, j)
  {
    var n := |qs| - 1;
    var after := qs[j := q];
    var (a, x) := (QueueBag(after[..n]), JobBag(after[n], n));
    var (b, y) := (QueueBag(qs[..n]), JobBag(qs[n], n));
    assert QueueBag(after) == a + x;
    assert QueueBag(qs) == b + y;
    if j < n {
      assert after[..n] == qs[..n][j := q];
      assert after[n] == qs[n];
      QueueBagUpdate(qs[..n], j, q);
      assert a + JobBag(qs[j], j) == b + JobBag(q, j);
      assert x == y;
    } else {
      assert after[..n] == qs[..n];
      assert after[n] == q;
    }
    MultisetShuffle(a, x, b, y, JobBag(qs[j], j), JobBag(q, j), j < n);
  }

  lemma {:induction false} TaskBagOfEmpty(sched: seq<seq<Entry>>)
    requires forall m :: 0 <= m < |sched| ==> sched[m] == []
    ensures TaskBag(sched) == multiset{}
  {
    if |sched| > 0 {
      TaskBagOfEmpty(sched[..|sched| - 1]);
    }
  }

  lemma {:induction false} QueueBagOfEmpty(qs: seq<seq<Op>>)
    requires forall j :: 0 <= j < |qs| ==> qs[j] == []
    ensures QueueBag(qs) == multiset{}
  {
    if |qs| > 0 {
      QueueBagOfEmpty(qs[..|qs| - 1]);
    }
  }

  /** A step moves one operation from a queue onto the schedule: none is lost, duplicated or altered. */
  lemma StepConserves(s: State)
    requires Valid(s) && Remaining(s.queues) > 0
    ensures Bag(Step(s)) == Bag(s)
  {
    StepPlaces(s);
    var j := Chosen(s);
    var q := s.queues[j];
    var m := q[0].0;
    var u := s.schedule[m];
    var t := Step(s).schedule[m];
    var slot: Slot := (j, m, q[0].1);
    assert TrackBag(t, m) == TrackBag(u, m) + multiset{slot} by {
      assert t[..|t| - 1][..|u|] == u;
    }
    assert JobBag(q, j) == multiset{slot} + JobBag(q[1..], j);
    var r := Step(s);
    assert r.schedule == s.schedule[m := t];
    assert r.queues == s.queues[j := q[1..]];
    TaskBagUpdate(s.schedule, m, t);
    QueueBagUpdate(s.queues, j, q[1..]);
    BagMove(TaskBag(r.schedule), TaskBag(s.schedule), TrackBag(u, m), TrackBag(t, m),
            QueueBag(r.queues), QueueBag(s.queues), JobBag(q, j), JobBag(q[1..], j), slot);
  }

  /** Moving one element from the queue side to the schedule side keeps the sum. */
  lemma BagMove<T>(sched': multiset<T>, sched: multiset<T>, track: multiset<T>, track': multiset<T>,
                   queues': multiset<T>, queues: multiset<T>, job: multiset<T>, job': multiset<T>, x: T)
    requires sched' + track == sched + track' && track' == track + multiset{x}
    requires queues' + job == queues + job' && job == multiset{x} + job'
    ensures sched' + queues' == sched + queues
  {
    forall o ensures (sched' + queues')[o] == (sched + queues)[o] {
      assert (sched' + track)[o] == (sched + track')[o];
      assert (queues' + job)[o] == (queues + job')[o];
    }
  }

  /** In the initial state every operation is still queued. */
  lemma InitBag(orig: seq<seq<Op>>, machines: nat)
    ensures Bag(Init(orig, machines)) == QueueBag(orig)
  {
    TaskBagOfEmpty(Init(orig, machines).schedule);
  }

  /** With every queue empty, the operations on the schedule are exactly those of the bag. */
  lemma DoneBag(s: State, b: multiset<Slot>)
    requires Bag(s) == b
    requires forall j :: 0 <= j < |s.queues| ==> s.queues[j] == []
    ensures TaskBag(s.schedule) == b
  {
    QueueBagOfEmpty(s.queues);
    forall o ensures TaskBag(s.schedule)[o] == b[o] {
      assert Bag(s)[o] == b[o];
    }
  }

  // ---------------------------------------------------------------------
  // What every round of create_schedule keeps

  /**
   * The facts the dispatch loop keeps about the state it has reached from
   * the original queues `orig`: where each dispatched operation went, that
   * each job's operations run in order, when each job is released, and that
   * no operation was lost, duplicated or altered.
   */
  ghost predicate Tracked(orig: seq<seq<Op>>, s: State, pl: seq<seq<Pos>>)
  {
    && Placed(orig, s, pl) && InOrder(s.schedule, pl) && Released(s.schedule, pl)
    && Bag(s) == QueueBag(orig)
  }

  lemma InitTracked(orig: seq<seq<Op>>, machines: nat) returns (pl: seq<seq<Pos>>)
    ensures Tracked(orig, Init(orig, machines), pl)
  {
    pl := InitPlaced(orig, machines);
    InitBag(orig, machines);
  }

  lemma StepTracked(orig: seq<seq<Op>>, s: State, pl: seq<seq<Pos>>) returns (pl': seq<seq<Pos>>)
    requires Valid(s) && Remaining(s.queues) > 0 && Tracked(orig, s, pl)
    ensures Tracked(orig, Step(s), pl')
  {
    pl' := StepKeepsOrder(orig, s, pl);
    StepConserves(s);
  }

  /**
   * Once no operation is left, every original operation is on the schedule,
   * and the tasks on the schedule are exactly the original operations.
   */
  lemma DoneTracked(orig: seq<seq<Op>>, s: State, pl: seq<seq<Pos>>)
    requires Tracked(orig, s, pl) && Remaining(s.queues) == 0
    ensures forall j :: 0 <= j < |s.queues| ==> s.queues[j] == []
    ensures forall j :: 0 <= j < |orig| ==> |pl[j]| == |orig[j]|
    ensures TaskBag(s.schedule) == QueueBag(orig)
    ensures Placed(orig, s, pl) && InOrder(s.schedule, pl)
  {
    RemainingZero(s.queues);
    DoneBag(s, QueueBag(orig));
    forall j | 0 <= j < |orig|
      ensures |pl[j]| == |orig[j]|
    {
      assert s.queues[j] == orig[j][|pl[j]|..];
    }
  }
}
