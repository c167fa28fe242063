/** Fetching a vault's inventory (inventory.rs:8-81): initiate an
    inventory-retrieval job, poll it until it completes, and write the whole
    job output to "inventory.json". */
module Inventory {
  import opened Common
  import opened Polling

  /** How the loop ends once the job has completed and inventory.json has
      been created: a failed get_job_output request returns Ok(()) with the
      file empty, a failing body stream returns Err with the file empty, and
      otherwise the whole body is written and Ok(()) returned. */
  predicate WroteInventory(output: OutputReply, exit: Exit, inventoryJson: Option<Bytes>)
    ensures WroteInventory(output, exit, inventoryJson) ==> inventoryJson.Some? && exit != StillPolling
    ensures WroteInventory(output, exit, inventoryJson) ==> (exit == ExitErr <==> output.Body? && output.streamFails)
  {
    match output
    case OutputFailed => exit == ExitOk && inventoryJson == Some([])
    case Body(chunks, fails) =>
      if fails then exit == ExitErr && inventoryJson == Some([])
      else exit == ExitOk && inventoryJson == Some(Concat(chunks))
  }

  /** do_inventory (inventory.rs:8-81). `initiated` is whether initiate_job
      succeeds and `rounds` are the passes of the polling loop.
      `inventoryJson` is the contents of "inventory.json" when the function
      returns. The body is collected whole before anything is written, so a
      failing body stream leaves the newly created file empty and returns
      Err; every failed request returns Ok(()). */
  method DoInventory(initiated: bool, rounds: seq<Round>)
    returns (exit: Exit, inventoryJson: Option<Bytes>, describes: nat, sleeps: nat)
    ensures !initiated ==> exit == ExitOk && inventoryJson == None && describes == 0 && sleeps == 0
    ensures initiated && FirstExit(rounds) == |rounds| ==>
      exit == StillPolling && inventoryJson == None && describes == |rounds| && sleeps == CountWaits(rounds)
    ensures initiated && FirstExit(rounds) < |rounds| ==>
      describes == FirstExit(rounds) + 1 && sleeps == CountWaits(rounds[..FirstExit(rounds)])
    ensures initiated && FirstExit(rounds) < |rounds| && rounds[FirstExit(rounds)].describe.RequestFailed? ==>
      exit == ExitOk && inventoryJson == None
    ensures initiated && FirstExit(rounds) < |rounds| && rounds[FirstExit(rounds)].describe.Completed? ==>
      WroteInventory(rounds[FirstExit(rounds)].output, exit, inventoryJson)
  {
    describes, sleeps := 0, 0;
    inventoryJson := None;
    if !initiated {
      return ExitOk, inventoryJson, describes, sleeps;
    }
    var k := 0;
    while true
      invariant Polled(rounds, k, sleeps) && describes == k && inventoryJson == None
      decreases |rounds| - k
    {
      if k == |rounds| {
        PollStopped(rounds, k, sleeps);
        exit := StillPolling;
        break;
      }
      var round := rounds[k];
      describes := describes + 1;
      match round.describe {
        case Completed(jobId) =>
          if round.fileCreated {
            PollStopped(rounds, k, sleeps);
            // File::create("inventory.json") truncates the file
            inventoryJson := Some([]);
            match round.output {
              case Body(chunks, fails) =>
                if fails {
                  exit := ExitErr;
                } else {
                  inventoryJson := Some(Concat(chunks));
                  exit := ExitOk;
                }
              case OutputFailed =>
                exit := ExitOk;
            }
            break;
          }
          PollAgain(rounds, k, sleeps);
          k := k + 1;
        case NotCompleted =>
          PollAgain(rounds, k, sleeps);
          sleeps := sleeps + 1;
          k := k + 1;
        case RequestFailed =>
          PollStopped(rounds, k, sleeps);
          exit := ExitOk;
          break;
      }
    }
  }

  /** A job that is reported not completed n times and then completed, with
      inventory.json created and the whole body delivered: n sleeps, then the
      file holds the body and the function returns Ok(()). */
  method InventoryAfterWaits(waiting: seq<Round>, jobId: string, chunks: seq<Bytes>)
    returns (exit: Exit, inventoryJson: Option<Bytes>, sleeps: nat)
    requires forall i :: 0 <= i < |waiting| ==> waiting[i].describe.NotCompleted?
    ensures exit == ExitOk && inventoryJson == Some(Concat(chunks)) && sleeps == |waiting|
  {
    var last := Round(Completed(jobId), true, Body(chunks, false));
    var rounds := waiting + [last];
    WaitsThenEnds(waiting, last);
    assert rounds[..|waiting|] == waiting && rounds[|waiting|] == last;
    var describes;
    exit, inventoryJson, describes, sleeps := DoInventory(true, rounds);
  }
}
