/** Polling a Glacier job until it completes (shared.rs:173-209). The service
    is an oracle: the replies the describe request gets, one per attempt, in
    order. Sleeping is a counted step that has no other effect. Where the
    source would keep polling for as long as the service answers "not
    completed", the model stops when the listed replies run out and reports
    that it is still waiting. */
module Polling {
  import opened Common

  /** Status (shared.rs:27-31). */
  datatype Status = Failed | Done | Pending

  /** What one describe_job request yields: a completed job (carrying its job
      id, the part of the output the callers use), a job that has not
      completed yet, or a failed request. */
  datatype DescribeReply = Completed(jobId: string) | NotCompleted | RequestFailed

  /** The result of describe_job_output: Ok((status, output)) or Err. */
  datatype DescribeResult = DescribeOk(status: Status, output: Option<string>) | DescribeErr

  /** describe_job_output (shared.rs:196-209). A successful request yields
      Done together with the output exactly when the job has completed, and
      Pending with no output otherwise; it never yields Failed. */
  function DescribeJobOutput(reply: DescribeReply): (r: DescribeResult)
    ensures r.DescribeErr? <==> reply.RequestFailed?
    ensures r.DescribeOk? ==> r.status != Failed
    ensures r.DescribeOk? ==> (r.status == Done <==> r.output.Some?)
    ensures r.DescribeOk? ==> (r.status == Done <==> reply.Completed?)
    ensures reply.Completed? ==> r.output == Some(reply.jobId)
    ensures reply.NotCompleted? ==> r == DescribeOk(Pending, None)
  {
    match reply
    case Completed(jobId) => DescribeOk(Done, Some(jobId))
    case NotCompleted => DescribeOk(Pending, None)
    case RequestFailed => DescribeErr
  }

  /** The position of the first reply that is not "not completed", or the
      number of replies when there is none. */
  function FirstSettled(replies: seq<DescribeReply>): (k: nat)
    ensures k <= |replies|
    ensures forall i :: 0 <= i < k ==> replies[i].NotCompleted?
    ensures k < |replies| ==> !replies[k].NotCompleted?
  {
    if replies == [] then 0
    else if replies[0].NotCompleted? then 1 + FirstSettled(replies[1..])
    else 0
  }

  /** What describe_job_loop returns: Ok with the completed job's output,
      Err after a failed request, or (the oracle ran out) still waiting. */
  datatype LoopResult = JobDescribed(jobId: string) | DescribeFailed | StillWaiting

  /** describe_job_loop (shared.rs:173-194): the first completed reply ends
      the loop with its output, every "not completed" reply is followed by a
      sleep and another request, and the first failed request ends the loop
      with an error. */
  method DescribeJobLoop(replies: seq<DescribeReply>) returns (r: LoopResult, sleeps: nat)
    ensures sleeps == FirstSettled(replies)
    ensures FirstSettled(replies) == |replies| ==> r == StillWaiting
    ensures FirstSettled(replies) < |replies| && replies[FirstSettled(replies)].Completed? ==>
      r == JobDescribed(replies[FirstSettled(replies)].jobId)
    ensures FirstSettled(replies) < |replies| && replies[FirstSettled(replies)].RequestFailed? ==>
      r == DescribeFailed
  {
    sleeps := 0;
    var attempt := 0;
    while true
      invariant attempt <= |replies| && sleeps == attempt
      invariant forall i :: 0 <= i < attempt ==> replies[i].NotCompleted?
      decreases |replies| - attempt
    {
      if attempt == |replies| {
        r := StillWaiting;
        break;
      }
      var result := DescribeJobOutput(replies[attempt]);
      if result.DescribeOk? && result.status == Done {
        r := JobDescribed(result.output.value);
        break;
      } else if result.DescribeOk? && result.status == Pending {
        sleeps := sleeps + 1;
        attempt := attempt + 1;
      } else {
        r := DescribeFailed;
        break;
      }
    }
    FirstSettledAt(replies, attempt);
  }

  /** The first settled reply is the one after the leading "not completed"
      replies. */
  lemma {:induction false} FirstSettledAt(replies: seq<DescribeReply>, k: nat)
    requires k <= |replies|
    requires forall i :: 0 <= i < k ==> replies[i].NotCompleted?
    requires k < |replies| ==> !replies[k].NotCompleted?
    ensures FirstSettled(replies) == k
  {
    if k > 0 {
      FirstSettledAt(replies[1..], k - 1);
    }
  }

  /** Replies after the first settled one are never looked at. */
  lemma {:induction false} FirstSettledIgnoresLater(replies: seq<DescribeReply>, later: seq<DescribeReply>)
    requires FirstSettled(replies) < |replies|
    ensures FirstSettled(replies + later) == FirstSettled(replies)
  {
    if replies[0].NotCompleted? {
      assert (replies + later)[1..] == replies[1..] + later;
      FirstSettledIgnoresLater(replies[1..], later);
    }
  }

  /** n replies of "not completed" followed by a completed job: n sleeps,
      then the job's output. */
  lemma PendingThenCompleted(n: nat, jobId: string)
    ensures FirstSettled(seq(n, i => NotCompleted) + [Completed(jobId)]) == n
  {
    var replies := seq(n, i => NotCompleted) + [Completed(jobId)];
    FirstSettledAt(replies, n);
  }

  /** What get_job_output yields: a failed request, or a body stream that
      delivers `chunks` in order and then either ends or fails. */
  datatype OutputReply = OutputFailed | Body(chunks: seq<Bytes>, streamFails: bool)

  /** One pass of the polling loops in download.rs and inventory.rs: the
      describe reply, whether the output file could be created (looked at
      only for a completed job), and the get_job_output reply (looked at only
      once the file exists). */
  datatype Round = Round(describe: DescribeReply, fileCreated: bool, output: OutputReply)

  /** How the polling functions return: Ok(()), Err, or (the oracle ran out)
      still polling. */
  datatype Exit = ExitOk | ExitErr | StillPolling

  /** Whether a round ends the loop: a failed describe request, or a
      completed job whose output file could be created. */
  predicate EndsLoop(r: Round)
    ensures EndsLoop(r) ==> !r.describe.NotCompleted?
  {
    r.describe.RequestFailed? || (r.describe.Completed? && r.fileCreated)
  }

  /** The position of the first round that ends the loop, or the number of
      rounds when none does. */
  function FirstExit(rounds: seq<Round>): (k: nat)
    ensures k <= |rounds|
    ensures forall i :: 0 <= i < k ==> !EndsLoop(rounds[i])
    ensures k < |rounds| ==> EndsLoop(rounds[k])
  {
    if rounds == [] then 0
    else if EndsLoop(rounds[0]) then 0
    else 1 + FirstExit(rounds[1..])
  }

  /** The number of rounds whose job had not completed: each one is followed
      by a one-hour sleep. */
  function CountWaits(rounds: seq<Round>): (n: nat)
    ensures n <= |rounds|
  {
    if rounds == [] then 0
    else CountWaits(rounds[..|rounds| - 1]) + (if rounds[|rounds| - 1].describe.NotCompleted? then 1 else 0)
  }

  lemma CountWaitsAppend(rounds: seq<Round>, r: Round)
    ensures CountWaits(rounds + [r]) == CountWaits(rounds) + (if r.describe.NotCompleted? then 1 else 0)
  {
    assert (rounds + [r])[..|rounds|] == rounds;
  }

  /** A completed job whose file cannot be created is asked about again
      without a sleep, so the sleeps count only the rounds that were not
      completed. */
  lemma {:induction false} CountWaitsCreateFailures(rounds: seq<Round>)
    requires forall i :: 0 <= i < |rounds| ==> rounds[i].describe.Completed? && !rounds[i].fileCreated
    ensures CountWaits(rounds) == 0
    ensures FirstExit(rounds) == |rounds|
  {
    if rounds != [] {
      CountWaitsCreateFailures(rounds[..|rounds| - 1]);
      FirstExitAt(rounds, |rounds|);
    }
  }

  /** The first round that ends the loop is the one after the leading rounds
      that do not. */
  lemma {:induction false} FirstExitAt(rounds: seq<Round>, k: nat)
    requires k <= |rounds|
    requires forall i :: 0 <= i < k ==> !EndsLoop(rounds[i])
    requires k < |rounds| ==> EndsLoop(rounds[k])
    ensures FirstExit(rounds) == k
  {
    if k > 0 {
      FirstExitAt(rounds[1..], k - 1);
    }
  }

  /** Rounds after the one that ends the loop are never looked at. */
  lemma {:induction false} FirstExitIgnoresLater(rounds: seq<Round>, later: seq<Round>)
    requires FirstExit(rounds) < |rounds|
    ensures FirstExit(rounds + later) == FirstExit(rounds)
  {
    if !EndsLoop(rounds[0]) {
      assert (rounds + later)[1..] == rounds[1..] + later;
      FirstExitIgnoresLater(rounds[1..], later);
    }
  }

  /** Rounds of a job that has not completed, then a round that ends the
      loop: the loop stops at that round, after one sleep per earlier round. */
  lemma {:induction false} WaitsThenEnds(waiting: seq<Round>, last: Round)
    requires forall i :: 0 <= i < |waiting| ==> waiting[i].describe.NotCompleted?
    requires EndsLoop(last)
    ensures FirstExit(waiting + [last]) == |waiting|
    ensures CountWaits(waiting) == |waiting|
    decreases |waiting|
  {
    var rounds := waiting + [last];
    assert rounds[|waiting|] == last;
    FirstExitAt(rounds, |waiting|);
    if waiting != [] {
      var front := waiting[..|waiting| - 1];
      WaitsThenEnds(front, last);
    }
  }

  /** The state of a polling loop before its pass k: no earlier pass ended
      the loop, and one sleep followed each pass whose job had not
      completed. */
  ghost predicate Polled(rounds: seq<Round>, k: nat, sleeps: nat)
  {
    k <= |rounds| && (forall i :: 0 <= i < k ==> !EndsLoop(rounds[i])) && sleeps == CountWaits(rounds[..k])
  }

  /** A pass that does not end the loop leads to the next one. */
  lemma PollAgain(rounds: seq<Round>, k: nat, sleeps: nat)
    requires Polled(rounds, k, sleeps) && k < |rounds| && !EndsLoop(rounds[k])
    ensures Polled(rounds, k + 1, sleeps + (if rounds[k].describe.NotCompleted? then 1 else 0))
  {
    CountWaitsAppend(rounds[..k], rounds[k]);
    assert rounds[..k + 1] == rounds[..k] + [rounds[k]];
  }

  /** The loop stops at the first pass that ends it, or when the passes run
      out. */
  lemma PollStopped(rounds: seq<Round>, k: nat, sleeps: nat)
    requires Polled(rounds, k, sleeps) && (k == |rounds| || EndsLoop(rounds[k]))
    ensures FirstExit(rounds) == k
    ensures k == |rounds| ==> sleeps == CountWaits(rounds)
  {
    FirstExitAt(rounds, k);
    if k == |rounds| {
      assert rounds[..k] == rounds;
    }
  }
}
