/**
 * A two-job, two-machine instance worked through `create_schedule` round by
 * round: job 0 = [(0, 3), (1, 2)], job 1 = [(1, 4), (0, 1)].
 */
module WorkedExample {
  import opened Opt
  import opened Timing
  import opened Dispatch

  function Jobs(): seq<seq<Op>>
  {
    [[(0, 3), (1, 2)], [(1, 4), (0, 1)]]
  }

  /** The state after each round. */
  function After(round: nat): State
    requires round <= 4
  {
    match round
    case 0 => State([[], []], Jobs())
    case 1 => State([[Task(0, 3)], []], [[(1, 2)], [(1, 4), (0, 1)]])
    case 2 => State([[Task(0, 3)], [Task(1, 4)]], [[(1, 2)], [(0, 1)]])
    case 3 => State([[Task(0, 3)], [Task(1, 4), Task(0, 2)]], [[], [(0, 1)]])
    case _ => State([[Task(0, 3), Pause(1), Task(1, 1)], [Task(1, 4), Task(0, 2)]], [[], []])
  }

  /** Round 1: both jobs have remaining work 5; the lower index, job 0, goes first on machine 0. */
  lemma Round1()
    ensures Valid(After(0)) && Remaining(After(0).queues) == 4
    ensures Step(After(0)) == After(1)
  {
    var s := After(0);
    InitValid(Jobs(), 2);
    assert Init(Jobs(), 2) == s;
    StepUnfolds(s);
    assert Work(s.queues[0]) == 5 && Work(s.queues[1]) == 5;
    assert Pick(s.queues) == 0 && Release(s.schedule, 0) == 0;
    assert NewEntries(0, Total(s.schedule[0]), 0, 3) == [Task(0, 3)];
    assert s.schedule[0] + [Task(0, 3)] == [Task(0, 3)];
    assert s.schedule[0 := [Task(0, 3)]] == After(1).schedule;
    assert s.queues[0 := s.queues[0][1..]] == After(1).queues;
  }

  /** Round 2: job 1 (work 5 against 2) starts at 0 on machine 1. */
  lemma Round2()
    requires Valid(After(1))
    ensures Step(After(1)) == After(2)
  {
    var s := After(1);
    StepUnfolds(s);
    assert Work(s.queues[0]) == 2 && Work(s.queues[1]) == 5;
    assert Pick(s.queues) == 1 && Release(s.schedule, 1) == 0;
    assert NewEntries(0, Total(s.schedule[1]), 1, 4) == [Task(1, 4)];
    assert s.schedule[1] + [Task(1, 4)] == [Task(1, 4)];
    assert s.schedule[1 := [Task(1, 4)]] == After(2).schedule;
    assert s.queues[1 := s.queues[1][1..]] == After(2).queues;
  }

  /** Round 3: job 0 is released at 3 but machine 1 is busy until 4, so no pause is needed. */
  lemma Round3()
    requires Valid(After(2))
    ensures Step(After(2)) == After(3)
  {
    var s := After(2);
    StepUnfolds(s);
    assert Work(s.queues[0]) == 2 && Work(s.queues[1]) == 1;
    assert Pick(s.queues) == 0 && Release(s.schedule, 0) == 3;
    assert NewEntries(3, Total(s.schedule[1]), 0, 2) == [Task(0, 2)];
    assert s.schedule[1] + [Task(0, 2)] == [Task(1, 4), Task(0, 2)];
    assert s.schedule[1 := [Task(1, 4), Task(0, 2)]] == After(3).schedule;
    assert s.queues[0][1..] == [];
    assert s.queues[0 := []] == After(3).queues;
  }

  /** Round 4: job 1 is released at 4 and machine 0 is free at 3, so a pause of 1 comes first. */
  lemma Round4()
    requires Valid(After(3))
    ensures Step(After(3)) == After(4)
  {
    var s := After(3);
    StepUnfolds(s);
    assert Work(s.queues[0]) == 0 && Work(s.queues[1]) == 1;
    assert Pick(s.queues) == 1 && Release(s.schedule, 1) == 4;
    assert NewEntries(4, Total(s.schedule[0]), 1, 1) == [Pause(1), Task(1, 1)];
    assert s.schedule[0] + [Pause(1), Task(1, 1)] == [Task(0, 3), Pause(1), Task(1, 1)];
    assert s.schedule[0 := [Task(0, 3), Pause(1), Task(1, 1)]] == After(4).schedule;
    assert s.queues[1 := s.queues[1][1..]] == After(4).queues;
  }

  /**
   * The four rounds give machine 0 = [(0, 3), pause 1, (1, 1)] and machine 1 =
   * [(1, 4), (0, 2)]; machine 0 runs until 5 and machine 1 until 6, so the
   * total makespan is 6.
   */
  lemma ExampleSchedule()
    ensures Valid(Init(Jobs(), 2)) && Remaining(Jobs()) == 4
    ensures Run(Init(Jobs(), 2), 4) == After(4)
    ensures TotalMakespan(After(4).schedule) == Some(6)
  {
    var s0 := Init(Jobs(), 2);
    Round1();
    assert s0 == After(0);
    assert Run(s0, 1) == After(1);
    Round2();
    assert Run(s0, 2) == After(2);
    Round3();
    assert Run(s0, 3) == After(3);
    Round4();
    assert Run(s0, 4) == After(4);
    FinalMakespan();
  }

  /** Machine 0 runs 3 + 1 + 1 = 5, machine 1 runs 4 + 2 = 6: the larger is 6. */
  lemma FinalMakespan()
    ensures TotalMakespan(After(4).schedule) == Some(6)
  {
    var t := After(4).schedule;
    var t0, t1 := [Task(0, 3), Pause(1), Task(1, 1)], [Task(1, 4), Task(0, 2)];
    assert t == [t0, t1];
    assert t0[..2] == [Task(0, 3), Pause(1)] && t0[..2][..1] == [Task(0, 3)];
    assert Total(t0[..2][..1]) == 3 && Total(t0[..2]) == 4 && Total(t0) == 5;
    assert t1[..1] == [Task(1, 4)];
    assert Total(t1[..1]) == 4 && Total(t1) == 6;
  }
}
