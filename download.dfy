/** Retrieving one archive (download.rs:95-176): initiate an archive-retrieval
    job, poll it until it completes, and stream its output into the file
    "archive". */
module Download {
  import opened Common
  import opened Polling

  /** How the loop ends once the job has completed and "archive" has been
      created: a failed get_job_output request returns Ok(()) with the file
      empty; otherwise every chunk the stream delivers is written in order,
      and the function returns Err if the stream then fails and Ok(()) if it
      ends. */
  predicate WroteArchive(output: OutputReply, exit: Exit, archive: Option<Bytes>)
    ensures WroteArchive(output, exit, archive) ==> archive.Some? && exit != StillPolling
    ensures WroteArchive(output, exit, archive) ==> (exit == ExitErr <==> output.Body? && output.streamFails)
  {
    match output
    case OutputFailed => exit == ExitOk && archive == Some([])
    case Body(chunks, fails) => archive == Some(Concat(chunks)) && exit == (if fails then ExitErr else ExitOk)
  }

  /** download_archive_by_id (download.rs:95-176). `initiated` is whether
      initiate_job succeeds and `rounds` are the passes of the polling loop.
      `archive` is the contents of the file "archive" when the function
      returns. A failed initiate, describe or get_job_output request still
      returns Ok(()); only a failure of the body stream returns Err, after the
      chunks before it have been written. */
  method DownloadArchiveById(initiated: bool, rounds: seq<Round>)
    returns (exit: Exit, archive: Option<Bytes>, describes: nat, sleeps: nat)
    ensures !initiated ==> exit == ExitOk && archive == None && describes == 0 && sleeps == 0
    ensures initiated && FirstExit(rounds) == |rounds| ==>
      exit == StillPolling && archive == None && describes == |rounds| && sleeps == CountWaits(rounds)
    ensures initiated && FirstExit(rounds) < |rounds| ==>
      describes == FirstExit(rounds) + 1 && sleeps == CountWaits(rounds[..FirstExit(rounds)])
    ensures initiated && FirstExit(rounds) < |rounds| && rounds[FirstExit(rounds)].describe.RequestFailed? ==>
      exit == ExitOk && archive == None
    ensures initiated && FirstExit(rounds) < |rounds| && rounds[FirstExit(rounds)].describe.Completed? ==>
      WroteArchive(rounds[FirstExit(rounds)].output, exit, archive)
  {
    describes, sleeps := 0, 0;
    archive := None;
    if !initiated {
      return ExitOk, archive, describes, sleeps;
    }
    var k := 0;
    while true
      invariant Polled(rounds, k, sleeps) && describes == k && archive == None
      decreases |rounds| - k
    {
      if k == |rounds| {
        PollStopped(rounds, k, sleeps);
        exit := StillPolling;
        break;
      }
      var round := rounds[k];
      describes := describes + 1;
      match round.describe {
        case Completed(jobId) =>
          if round.fileCreated {
            PollStopped(rounds, k, sleeps);
            // File::create("archive") truncates the file
            match round.output {
              case Body(chunks, fails) =>
                var written: Bytes := [];
                for c := 0 to |chunks|
                  invariant written == Concat(chunks[..c])
                {
                  ConcatAppend(chunks[..c], chunks[c]);
                  assert chunks[..c + 1] == chunks[..c] + [chunks[c]];
                  written := written + chunks[c];
                }
                assert chunks[..|chunks|] == chunks;
                archive := Some(written);
                exit := if fails then ExitErr else ExitOk;
              case OutputFailed =>
                archive := Some([]);
                exit := ExitOk;
            }
            break;
          }
          PollAgain(rounds, k, sleeps);
          k := k + 1;
        case NotCompleted =>
          PollAgain(rounds, k, sleeps);
          sleeps := sleeps + 1;
          k := k + 1;
        case RequestFailed =>
          PollStopped(rounds, k, sleeps);
          exit := ExitOk;
          break;
      }
    }
  }

  /** A job that is reported not completed n times and then completed, with
      the file created and the whole stream delivered: n sleeps, then
      "archive" holds the stream's chunks in order and the function returns
      Ok(()). */
  method DownloadAfterWaits(waiting: seq<Round>, jobId: string, chunks: seq<Bytes>)
    returns (exit: Exit, archive: Option<Bytes>, sleeps: nat)
    requires forall i :: 0 <= i < |waiting| ==> waiting[i].describe.NotCompleted?
    ensures exit == ExitOk && archive == Some(Concat(chunks)) && sleeps == |waiting|
  {
    var last := Round(Completed(jobId), true, Body(chunks, false));
    var rounds := waiting + [last];
    WaitsThenEnds(waiting, last);
    assert rounds[..|waiting|] == waiting && rounds[|waiting|] == last;
    var describes;
    exit, archive, describes, sleeps := DownloadArchiveById(true, rounds);
  }
}
