# Greedy job-shop scheduler

A Dafny model of the greedy job-shop scheduler in `functions.py` and of the
instance reader in `read_files.py`.

A job is a queue of operations. Each operation is a `(machine, duration)`
pair, and a job's operations must run in order. The scheduler keeps one
track per machine: an ordered list of entries. An entry is either an
operation of some job or a pause. Entries carry no timestamps. An entry
starts when the entries before it on its track have run, so every time in
the schedule is a prefix sum of durations.

`create_schedule` runs one round per operation. Each round:

- picks the job with the most remaining work, the lowest index winning ties;
- takes the front operation of that job's queue;
- appends the operation to its machine's track, after a pause when the job's
  previous operations complete later than the machine becomes free;
- deletes the operation from the queue.

The model has these modules:

- `Opt` (option.dfy): the `Option` type.
- `Timing` (timing.dfy): entries and the times they imply.
  - `Total` is the running time of a track.
  - `TrackRelease` and `Release` give when a job is released: the time its
    next operation may start.
  - `TotalMakespan` is the largest running time over all machines.
- `Dispatch` (dispatch.dfy): the dispatcher as a pure state machine.
  - `Pick` is the priority rule and `Step` is one round.
  - `Run` is `n` rounds.
  - The lemmas say what one round does: which job it picks, what it appends,
    and when each job is then released.
  - They also say what every round preserves: where each original operation
    was placed, per-job precedence, and conservation of operations.
- `Scheduler` (scheduler.dfy): the imperative code of `functions.py`. Its
  methods work over arrays of tracks and queues that they update in place:
  - `Makespans` is `makespan`;
  - `ReleaseTimes` is `release_time`;
  - `DispatchOne` is one loop iteration of `create_schedule`;
  - `DispatchAll` and `CreateSchedule` are `create_schedule` itself;
  - `TotalMakespanOf` is the computation inside `print_total_makespan`.

  Each method is proved to compute the corresponding pure definition.
  `CreateSchedule` is proved to leave the arrays in state `Run(Init(..), jobs * machines)`.
  By then every queue is empty and the schedule holds exactly the original
  operations. Each operation sits on its own machine, and each starts no
  earlier than the previous operation of its job completes.
- `InstanceReader` (reader.dfy): `read_jssp` over lines that have already been
  split into integer tokens.
- `WorkedExample` (example.dfy): a two-job, two-machine instance, followed
  round by round through `Step`:
  - jobs `[(0,3),(1,2)]` and `[(1,4),(0,1)]`;
  - machine 0 ends as `[(0,3), pause 1, (1,1)]`;
  - machine 1 ends as `[(1,4), (0,2)]`;
  - the total makespan is 6.

## Model

| member | source | states |
|---|---|---|
| Timing.Largest | functions.py:117 | `max` of a list: `None` exactly for the empty list; otherwise an element that bounds every element |
| Timing.TotalMakespan | functions.py:112-117 | the total makespan: `None` exactly when there is no machine; otherwise at least every machine's running time (pauses included) and equal to one of them |
| Timing.TrackReleaseIsMax | functions.py:34-41 | on one track, the release value of job `j` is at least the completion time of every entry of `j`; it equals one of them, or is 0 when the track holds none |
| Timing.ReleaseIsMax | functions.py:30-43 | release time of job `j` = maximum over all machines and entries of `j` of the entry's prefix-sum completion time; 0 when `j` has no entry |
| Timing.PauseKeepsRelease | functions.py:38-41 | appending a pause advances the track's running time by its length and changes no job's release time |
| Timing.ReleaseOfEmpty | functions.py:30 | with all tracks empty every job is released at 0 |
| Timing.EndIsNextStart | functions.py:41 | an entry ends its own duration after it starts, which is when the next entry starts |
| Dispatch.FirstMaxIndex | functions.py:65 | `s.index(max(s))`: an index holding a maximum, with every earlier element strictly smaller |
| Dispatch.PickIsFirstMax | functions.py:63-65 | the picked job has maximal remaining work, and every lower-numbered job has strictly less |
| Dispatch.PickAgrees | functions.py:63-65 | the index of the first maximum of the list of remaining work is exactly the picked job |
| Dispatch.PickNonEmpty | functions.py:65-67 | while operations remain, the picked job's queue is non-empty; its front operation names an existing machine and has a positive duration |
| Dispatch.WorkFront | functions.py:82 | deleting the front operation lowers a job's remaining work by that operation's duration |
| Dispatch.WorkPositive | functions.py:65-67 | with positive durations, a job has remaining work exactly when its queue is non-empty |
| Dispatch.RemainingUniform | functions.py:58 | when every job has `machines` operations there are `jobs * machines` in all, the loop's round count |
| Dispatch.RemainingZero | functions.py:58 | no operation remains exactly when every queue is empty |
| Dispatch.Step | functions.py:61-82 | one round keeps the state well-formed and consumes exactly one operation |
| Dispatch.Run | functions.py:58-82 | `n` rounds keep the state well-formed and consume exactly `n` operations |
| Dispatch.StepPicks | functions.py:63-67 | the round picks a job with maximal remaining work, the lowest index among ties, with a non-empty queue. It removes exactly that job's front operation and leaves every other queue unchanged |
| Dispatch.StepPlaces | functions.py:69-80 | only the front operation's machine track changes. It gains the task alone when release <= runtime. Otherwise it gains a pause of exactly `release - runtime` (positive) and then the task. The task starts at `max(release, runtime)`, and the track then runs that long plus the duration |
| Dispatch.StepReleases | functions.py:61 | after a round the chosen job is released when its new task completes; every other job keeps its release time |
| Dispatch.StepMoves | functions.py:71-82 | a round moves the chosen job's front operation to the end of its machine's track. The other tracks only keep their entries, and the other queues are unchanged. The task starts no earlier than the job's release time; afterwards the job is released when the task completes, and every other job keeps its release time |
| Dispatch.StepKeepsOrder | functions.py:58-82 | a round extends the placement map by exactly one position: the chosen job's placement gains the last entry of its front operation's machine track, and every other job's placement is unchanged. In the extended map each dispatched operation is on its own machine as a task of its job with its duration, and starts no earlier than the previous operation of its job completes. Each job is released when its latest placed operation completes |
| Dispatch.PlaceNext | functions.py:71-82 | moving a job's front operation to a new track position that starts no earlier than the job's release time extends that job's placement by the position; placement, per-job order and release times are all kept |
| Dispatch.StepConserves | functions.py:67-82 | the multiset of (job, machine, duration) over queued and placed operations is unchanged by a round |
| Dispatch.InitValid | functions.py:55 | the empty schedule with the input queues is well-formed when every operation names a machine below `machines` and has a positive duration |
| Dispatch.InitPlaced | functions.py:55 | initially nothing is placed and every job is released at 0 |
| Dispatch.InitBag | functions.py:55 | initially every operation is still queued |
| Dispatch.DoneBag | functions.py:84 | once all queues are empty, the tasks on the schedule are exactly the operations counted so far |
| Dispatch.InitTracked | functions.py:55 | the initial state satisfies the loop's bookkeeping invariant (placement, order, release, conservation) |
| Dispatch.StepTracked | functions.py:58-82 | every round preserves that invariant |
| Dispatch.DoneTracked | functions.py:58-84 | when no operation remains, every queue is empty, every original operation has been placed (on its own machine, in its job's order), and the tasks on the schedule are exactly the original operations |
| Scheduler.Makespans | functions.py:3-17 | returns one entry per job, entry `j` being the sum of the durations in job `j`'s queue; the queues are not modified |
| Scheduler.ReleaseTimes | functions.py:20-43 | returns one entry per job, entry `j` being `Release` of job `j` over the first `machines` tracks; requires that every task names a job below `jobs` |
| Scheduler.DispatchOne | functions.py:60-82 | one loop iteration updates the tracks and queues in place to exactly `Step` of the old state |
| Scheduler.DispatchAll | functions.py:58-82 | the `jobs * machines` iterations leave exactly `Run(Init(..), jobs * machines)` and keep the bookkeeping invariant |
| Scheduler.CreateSchedule | functions.py:46-84 | given `jobs * machines` operations in all, on machines below `machines` with positive durations, returns a fresh schedule with one track per machine equal to `Run` of the initial state. Every queue ends empty, and the tasks on the tracks are exactly the original operations. Every operation is placed on its own machine, no earlier than its job's previous operation completes |
| Scheduler.TotalMakespanOf | functions.py:112-117 | the nested summing loop followed by `max` computes `TotalMakespan` of the schedule |
| InstanceReader.Pairs | read_files.py:21-29 | a job line's tokens grouped in order into consecutive pairs: `|tokens| / 2` of them, pair `i` = tokens `2i` and `2i+1` |
| InstanceReader.PairsSnoc | read_files.py:25-28 | completing a pair at the end of an even prefix appends that pair to the job |
| InstanceReader.PairsOddDropped | read_files.py:21-29 | an odd trailing token is dropped, as if the line ended before it |
| InstanceReader.ReadJob | read_files.py:20-30 | the token loop over one job line builds exactly `Pairs(line)` |
| InstanceReader.ReadJssp | read_files.py:7-32 | with at most four lines, both counts are `None` and there are no jobs. A counts line with fewer than two tokens fails. Otherwise the counts are the first two tokens of line 4, and each later line gives one job, `Pairs` of that line, in line order |
| WorkedExample.Round1 | functions.py:58-82 | round 1 of the example: equal work, job 0 goes first onto machine 0 |
| WorkedExample.Round2 | functions.py:58-82 | round 2: job 1 starts at 0 on machine 1 |
| WorkedExample.Round3 | functions.py:71-80 | round 3: job 0 is ready at 3 but machine 1 is busy until 4, so no pause is needed |
| WorkedExample.Round4 | functions.py:75-77 | round 4: job 1 is ready at 4 and machine 0 is free at 3, so a pause of 1 precedes the task |
| WorkedExample.ExampleSchedule | functions.py:46-84 | the example's four rounds produce machine 0 = `[(0,3), pause 1, (1,1)]` and machine 1 = `[(1,4), (0,2)]`, with total makespan 6 |
| WorkedExample.FinalMakespan | functions.py:112-117 | the final example schedule has total makespan 6 |

## Left out

- `print_schedule`, `print_all_jobs` and the `print` in `print_total_makespan` (functions.py:87-104, 117) are left out: console output only.
- `testing.py` and `test2.py` are left out. They are driver scripts that read files and print. Their makespan loop is the one at functions.py:112-116, which `TotalMakespanOf` models.
- The functions that `test2.py` imports are not part of this model: `schedule_jobs`, `combinations`, `rollout`, `rollout2`, `multistep` and `max_makespan`. Their source is not in `functions.py`.
- Opening the instance file, splitting lines and `int()` conversion in `read_jssp` are I/O and library parsing. The reader takes lines already split into integer tokens.
- Python's `IndexError` on a counts line with fewer than two tokens is modelled as the outcome `CountsLineTooShort`.
- `max` of an empty list raises `ValueError` in `print_total_makespan`. It is the `None` result of `Largest` and `TotalMakespan`.
- The `"pause"` string and the `isinstance` test are modelled as the `Pause` constructor of `Entry`.
- Scheduler.DispatchOne: the source appends to the machine's track in place, one or two `append` calls. The model builds the extended track and writes the array element once. Both give the same final track; aliasing between tracks is not modelled.
- Scheduler.CreateSchedule: its preconditions are sufficient for the source to run all rounds, but not all of them are necessary:
  - the queue array has exactly `jobs` entries. The source also accepts further empty jobs past `jobs`, which it never picks while work remains. Such empty jobs arise from trailing blank lines in an instance file.
  - the queues hold `jobs * machines` operations in all, however they are spread over the jobs. With fewer, functions.py:67 eventually indexes an empty job. With more, the source runs but leaves operations queued; that case is not modelled.
  - every machine index is below `machines`. Given the total count every operation is dispatched, so a larger index fails at functions.py:71.
  - every duration is positive. With zero durations the source fails only when operations remain, every job's remaining work is 0, and the lowest-numbered job is empty. Otherwise it runs, but such instances are not modelled.
- Integers are unbounded, as Python's are.
- The reader keeps its tokens and counts as `int`. The link from the reader's `(int, int)` pairs to the scheduler's `(nat, nat)` operations is not modelled. Neither is feeding `read_jssp`'s counts into `create_schedule`.
