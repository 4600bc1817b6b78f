/**
 * `read_jssp` of read_files.py over an instance file that has already been
 * split into lines and each line into integer tokens.
 *
 * The format: four header lines that are ignored, one line whose first two
 * tokens are the number of jobs and of machines, then one line per job listing
 * its operations as consecutive (machine, duration) token pairs.
 */
module InstanceReader {
  import opened Opt

  /** One operation as read from the file: (machine, duration). */
  type Pair = (int, int)

  /**
   * What `read_jssp` returns: the two counts (None while the counts line has
   * not been reached) and the jobs read so far. A counts line with fewer than
   * two tokens makes the source fail while indexing it; that is
   * `CountsLineTooShort` here.
   */
  datatype Outcome =
    | Parsed(jobs: Option<int>, machines: Option<int>, allJobs: seq<seq<Pair>>)
    | CountsLineTooShort

  /** Index of the counts line; the lines before it are skipped. */
  const SkipLines: nat := 4

  /**
   * The operations on one job line: its tokens grouped into consecutive pairs
   * in order. An odd trailing token does not complete a pair and is dropped.
   */
  function Pairs(tokens: seq<int>): (r: seq<Pair>)
    ensures |r| == |tokens| / 2
    ensures forall i :: 0 <= i < |r| ==> r[i] == (tokens[2 * i], tokens[2 * i + 1])
  {
    if |tokens| < 2 then []
    else [(tokens[0], tokens[1])] + Pairs(tokens[2..])
  }

  /** Completing one more pair at the end of an even prefix appends it. */
  lemma {:induction false} PairsSnoc(t: seq<int>, a: int, b: int)
    requires |t| % 2 == 0
    ensures Pairs(t + [a, b]) == Pairs(t) + [(a, b)]
  {
    if |t| == 0 {
      assert t + [a, b] == [a, b];
    } else {
      assert (t + [a, b])[2..] == t[2..] + [a, b];
      PairsSnoc(t[2..], a, b);
    }
  }

  /** An odd trailing token changes nothing: it is as if the line ended before it. */
  lemma {:induction false} PairsOddDropped(t: seq<int>)
    requires |t| % 2 == 1
    ensures Pairs(t) == Pairs(t[..|t| - 1])
  {
    if |t| > 2 {
      assert t[2..][..|t[2..]| - 1] == t[..|t| - 1][2..];
      PairsOddDropped(t[2..]);
    }
  }

  /**
   * `read_jssp`: the lines before the counts line are skipped; the counts line
   * sets `jobs` and `machines` from its first two tokens (any further tokens
   * are ignored); every later line becomes one job, in line order, however
   * many tokens it has (a blank line gives an empty job); the pair being
   * built is discarded at the end of each line.
   */
  method ReadJssp(lines: seq<seq<int>>) returns (out: Outcome)
    ensures |lines| <= SkipLines ==> out == Parsed(None, None, [])
    ensures |lines| > SkipLines && |lines[SkipLines]| < 2 ==> out == CountsLineTooShort
    ensures |lines| > SkipLines && |lines[SkipLines]| >= 2 ==>
      && out.Parsed?
      && out.jobs == Some(lines[SkipLines][0]) && out.machines == Some(lines[SkipLines][1])
      && |out.allJobs| == |lines| - SkipLines - 1
      && forall i :: 0 <= i < |out.allJobs| ==> out.allJobs[i] == Pairs(lines[SkipLines + 1 + i])
  {
    var jobs: Option<int> := None;
    var machines: Option<int> := None;
    var allJobs: seq<seq<Pair>> := [];
    for e := 0 to |lines|
      invariant e <= SkipLines ==> jobs == None && machines == None
      invariant e > SkipLines ==> |lines[SkipLines]| >= 2
      invariant e > SkipLines ==> jobs == Some(lines[SkipLines][0]) && machines == Some(lines[SkipLines][1])
      invariant |allJobs| == if e <= SkipLines then 0 else e - SkipLines - 1
      invariant forall i :: 0 <= i < |allJobs| ==> allJobs[i] == Pairs(lines[SkipLines + 1 + i])
    {
      var line := lines[e];
      if e == SkipLines {
        if |line| < 2 {
          return CountsLineTooShort;
        }
        jobs := Some(line[0]);
        machines := Some(line[1]);
      }
      if e > SkipLines {
        var job := ReadJob(line);
        allJobs := allJobs + [job];
      }
    }
    out := Parsed(jobs, machines, allJobs);
  }

  /**
   * One job line of `read_jssp`: tokens are collected into `s` and every
   * second one completes a pair that is appended to the job.
   */
  method ReadJob(line: seq<int>) returns (job: seq<Pair>)
    ensures job == Pairs(line)
  {
    var s: seq<int> := [];
    job := [];
    for k := 0 to |line|
      invariant |s| <= 1 && k == 2 * |job| + |s|
      invariant s == line[2 * |job|..k] && job == Pairs(line[..2 * |job|])
    {
      s := s + [line[k]];
      if |s| == 2 {
        assert line[..k + 1] == line[..2 * |job|] + [s[0], s[1]];
        PairsSnoc(line[..2 * |job|], s[0], s[1]);
        job := job + [(s[0], s[1])];
        s := [];
      }
    }
    assert line[..|line|] == line;
    if |s| == 1 {
      PairsOddDropped(line);
    }
  }
}
