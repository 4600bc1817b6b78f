/**
 * Machine tracks and the times implied by them (functions.py).
 *
 * A track is the ordered list of entries scheduled on one machine. Entries
 * carry no timestamp: an entry starts when the entries before it on its track
 * have run, so every time in the schedule is a prefix sum of durations.
 */
module Timing {
  import opened Opt

  /** One slot on a machine track: an idle gap, or an operation of job `job`. */
  datatype Entry = Pause(d: nat) | Task(job: nat, d: nat)

  function Max(a: nat, b: nat): nat { if a < b then b else a }

  /** True when entry `e` is an operation of job `j` (pauses belong to no job). */
  predicate Holds(e: Entry, j: nat) { e.Task? && e.job == j }

  /** Sum of the durations on a track, pauses included. */
  function Total(t: seq<Entry>): nat
  {
    if |t| == 0 then 0 else Total(t[..|t| - 1]) + t[|t| - 1].d
  }

  /** Time at which the entry at position `k` of track `t` starts. */
  function Start(t: seq<Entry>, k: nat): nat
    requires k < |t|
  {
    Total(t[..k])
  }

  /** Time at which the entry at position `k` of track `t` completes. */
  function End(t: seq<Entry>, k: nat): nat
    requires k < |t|
  {
    Total(t[..k + 1])
  }

  /**
   * Completion time of the last operation of job `j` on track `t`, or 0 when
   * the track holds none. Because durations are non-negative, the last one is
   * also the latest (TrackReleaseIsMax).
   */
  function TrackRelease(t: seq<Entry>, j: nat): nat
  {
    if |t| == 0 then 0
    else if Holds(t[|t| - 1], j) then Total(t)
    else TrackRelease(t[..|t| - 1], j)
  }

  /** Release time of job `j`: the latest completion of any of its operations on any track. */
  function Release(sched: seq<seq<Entry>>, j: nat): nat
  {
    if |sched| == 0 then 0
    else Max(Release(sched[..|sched| - 1], j), TrackRelease(sched[|sched| - 1], j))
  }

  /**
   * The largest element of a list, as Python's `max` computes it; `max` fails
   * on an empty list, which is `None` here.
   */
  function Largest(xs: seq<nat>): (r: Option<nat>)
    ensures r.None? <==> |xs| == 0
    ensures r.Some? ==> forall i :: 0 <= i < |xs| ==> xs[i] <= r.value
    ensures r.Some? ==> exists i :: 0 <= i < |xs| && xs[i] == r.value
  {
    if |xs| == 0 then None
    else
      var last := xs[|xs| - 1];
      match Largest(xs[..|xs| - 1])
      case None => Some(last)
      case Some(v) => Some(Max(v, last))
  }

  /** The running time of every machine: the sum of the durations on its track, pauses included. */
  function MachineTimes(sched: seq<seq<Entry>>): seq<nat>
  {
    seq(|sched|, m requires 0 <= m < |sched| => Total(sched[m]))
  }

  /**
   * Total makespan: the largest running time of any machine. A schedule
   * without machines has none.
   */
  function TotalMakespan(sched: seq<seq<Entry>>): (r: Option<nat>)
    ensures r.None? <==> |sched| == 0
    ensures r.Some? ==> forall m :: 0 <= m < |sched| ==> Total(sched[m]) <= r.value
    ensures r.Some? ==> exists m :: 0 <= m < |sched| && Total(sched[m]) == r.value
  {
    var times := MachineTimes(sched);
    assert forall m :: 0 <= m < |sched| ==> times[m] == Total(sched[m]);
    Largest(times)
  }

  // ---------------------------------------------------------------------
  // Facts about prefix sums

  /** A prefix of a track never lasts longer than the track. */
  lemma {:induction false} TotalPrefix(t: seq<Entry>, k: nat)
    requires k <= |t|
    ensures Total(t[..k]) <= Total(t)
  {
    if k < |t| {
      assert t[..|t| - 1][..k] == t[..k];
      TotalPrefix(t[..|t| - 1], k);
    } else {
      assert t[..k] == t;
    }
  }

  /** An entry ends its duration after it starts, exactly when the next entry starts. */
  lemma EndIsNextStart(t: seq<Entry>, k: nat)
    requires k < |t|
    ensures End(t, k) == Start(t, k) + t[k].d
  {
    assert t[..k + 1][..k] == t[..k];
  }

  lemma {:induction false} TrackReleaseBounded(t: seq<Entry>, j: nat)
    ensures TrackRelease(t, j) <= Total(t)
  {
    if |t| > 0 && !Holds(t[|t| - 1], j) {
      TrackReleaseBounded(t[..|t| - 1], j);
    }
  }

  /**
   * The release time on one track is the maximum, over the entries of job `j`
   * on it, of their completion times; it is 0 exactly when no such entry
   * exists or every one of them completes at 0.
   */
  lemma {:induction false} TrackReleaseIsMax(t: seq<Entry>, j: nat)
    ensures forall k :: 0 <= k < |t| && Holds(t[k], j) ==> End(t, k) <= TrackRelease(t, j)
    ensures (exists k :: 0 <= k < |t| && Holds(t[k], j) && End(t, k) == TrackRelease(t, j))
         || (TrackRelease(t, j) == 0 && forall k :: 0 <= k < |t| ==> !Holds(t[k], j))
  {
    if |t| > 0 {
      var n := |t| - 1;
      var p := t[..n];
      assert t[..n + 1] == t;
      forall k | 0 <= k < n
        ensures t[k] == p[k] && End(t, k) == End(p, k)
      {
        assert t[..k + 1] == p[..k + 1];
      }
      forall k | 0 <= k < |t| && Holds(t[k], j)
        ensures End(t, k) <= TrackRelease(t, j)
      {
        TotalPrefix(t, k + 1);
        if k < n && !Holds(t[n], j) {
          TrackReleaseIsMax(p, j);
        }
      }
      if !Holds(t[n], j) {
        TrackReleaseIsMax(p, j);
      }
    }
  }

  /**
   * A job's release time is the maximum, over all machines, of the completion
   * times of its operations, and 0 when it has no operation anywhere (or all
   * of them complete at 0).
   */
  lemma {:induction false} ReleaseIsMax(sched: seq<seq<Entry>>, j: nat)
    ensures forall m, k :: 0 <= m < |sched| && 0 <= k < |sched[m]| && Holds(sched[m][k], j) ==>
              End(sched[m], k) <= Release(sched, j)
    ensures (exists m, k :: 0 <= m < |sched| && 0 <= k < |sched[m]| && Holds(sched[m][k], j) &&
              End(sched[m], k) == Release(sched, j))
         || (Release(sched, j) == 0 &&
             forall m, k :: 0 <= m < |sched| && 0 <= k < |sched[m]| ==> !Holds(sched[m][k], j))
  {
    if |sched| > 0 {
      var n := |sched| - 1;
      var p := sched[..n];
      ReleaseIsMax(p, j);
      TrackReleaseIsMax(sched[n], j);
      assert forall m :: 0 <= m < n ==> sched[m] == p[m];
    }
  }

  /** Replacing one track by one with the same release time for `j` leaves `j`'s release time alone. */
  lemma {:induction false} ReleaseReplaceSame(sched: seq<seq<Entry>>, m: nat, u: seq<Entry>, j: nat)
    requires m < |sched|
    requires TrackRelease(u, j) == TrackRelease(sched[m], j)
    ensures Release(sched[m := u], j) == Release(sched, j)
  {
    var n := |sched| - 1;
    assert sched[m := u][..n] == if m < n then sched[..n][m := u] else sched[..n];
    if m < n {
      ReleaseReplaceSame(sched[..n], m, u, j);
    }
  }

  /** Replacing one track by one on which `j` completes no earlier than anywhere before sets `j`'s release time. */
  lemma {:induction false} ReleaseReplaceRaise(sched: seq<seq<Entry>>, m: nat, u: seq<Entry>, j: nat)
    requires m < |sched|
    requires TrackRelease(u, j) >= Release(sched, j)
    ensures Release(sched[m := u], j) == TrackRelease(u, j)
  {
    var n := |sched| - 1;
    assert sched[m := u][..n] == if m < n then sched[..n][m := u] else sched[..n];
    if m < n {
      ReleaseReplaceRaise(sched[..n], m, u, j);
    }
  }

  /**
   * Appending a pause to a track advances that track's running time by the
   * pause's length but never changes the release time of any job.
   */
  lemma PauseKeepsRelease(sched: seq<seq<Entry>>, m: nat, p: nat, j: nat)
    requires m < |sched|
    ensures Total(sched[m] + [Pause(p)]) == Total(sched[m]) + p
    ensures Release(sched[m := sched[m] + [Pause(p)]], j) == Release(sched, j)
  {
    var u := sched[m] + [Pause(p)];
    assert u[..|u| - 1] == sched[m];
    ReleaseReplaceSame(sched, m, u, j);
  }

  /** On a schedule whose tracks are all empty every job is released at time 0. */
  lemma {:induction false} ReleaseOfEmpty(sched: seq<seq<Entry>>, j: nat)
    requires forall m :: 0 <= m < |sched| ==> sched[m] == []
    ensures Release(sched, j) == 0
  {
    if |sched| > 0 {
      ReleaseOfEmpty(sched[..|sched| - 1], j);
    }
  }
}
