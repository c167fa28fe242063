/** The local job ledger (shared.rs): the file `jobs.json` under the basmati
    directory lists the retrieval and inventory jobs this client has
    initiated. Every operation reads the whole file, changes the list, and
    writes the whole list back. The JSON encoding is treated as a faithful
    round trip, so the file is modelled by the list it decodes to. */
module Ledger {
  import opened Common

  /** TWENTY_FOUR_HOURS (shared.rs:24), in seconds. */
  const TwentyFourHours: int := 86400

  /** JobType (shared.rs:34-37). */
  datatype JobType = Inventory | Retrieval

  /** InitiatedJob (shared.rs:56-62): one ledger record. */
  datatype InitiatedJob = InitiatedJob(location: string, jobId: string, vault: string, timestamp: int, jobType: JobType)

  /** What reading jobs.json finds: no file, a file whose contents do not
      decode as a job list, or a decoded list. */
  datatype LedgerFile = Missing | Corrupt | Jobs(entries: seq<InitiatedJob>)

  /** The list get_jobs yields for a file (shared.rs:217-226). */
  function StoredJobs(f: LedgerFile): seq<InitiatedJob>
  {
    if f.Jobs? then f.entries else []
  }

  /** The records delete_job_from_local keeps (shared.rs:134). */
  function RemoveJob(jobs: seq<InitiatedJob>, jobId: string): (r: seq<InitiatedJob>)
    ensures |r| <= |jobs|
    ensures forall j :: j in r <==> j in jobs && j.jobId != jobId
  {
    Filter(jobs, (j: InitiatedJob) => j.jobId != jobId)
  }

  /** Whether a record is younger than a day at time `now` (shared.rs:144). */
  predicate Fresh(j: InitiatedJob, now: int)
  {
    now - j.timestamp < TwentyFourHours
  }

  /** The records delete_expired_jobs_from_local keeps (shared.rs:142-145). */
  function Unexpired(jobs: seq<InitiatedJob>, now: int): (r: seq<InitiatedJob>)
    ensures |r| <= |jobs|
    ensures forall j :: j in r <==> j in jobs && Fresh(j, now)
  {
    Filter(jobs, (j: InitiatedJob) => Fresh(j, now))
  }

  /** Removing a job keeps the other records in their order: removing from
      two lists laid end to end is removing from each. */
  lemma RemoveJobKeepsOrder(a: seq<InitiatedJob>, b: seq<InitiatedJob>, jobId: string)
    ensures RemoveJob(a + b, jobId) == RemoveJob(a, jobId) + RemoveJob(b, jobId)
  {
    FilterConcat(a, b, (j: InitiatedJob) => j.jobId != jobId);
  }

  /** Removing an id no record has changes nothing. */
  lemma RemoveAbsentJob(jobs: seq<InitiatedJob>, jobId: string)
    requires forall j :: j in jobs ==> j.jobId != jobId
    ensures RemoveJob(jobs, jobId) == jobs
  {
    FilterKeepsAll(jobs, (j: InitiatedJob) => j.jobId != jobId);
  }

  /** Removing the same id twice is removing it once. */
  lemma RemoveJobIdempotent(jobs: seq<InitiatedJob>, jobId: string)
    ensures RemoveJob(RemoveJob(jobs, jobId), jobId) == RemoveJob(jobs, jobId)
  {
    FilterIdempotent(jobs, (j: InitiatedJob) => j.jobId != jobId);
  }

  /** Expiry keeps the surviving records in their order. */
  lemma UnexpiredKeepsOrder(a: seq<InitiatedJob>, b: seq<InitiatedJob>, now: int)
    ensures Unexpired(a + b, now) == Unexpired(a, now) + Unexpired(b, now)
  {
    FilterConcat(a, b, (j: InitiatedJob) => Fresh(j, now));
  }

  /** A second expiry at the same time changes nothing. */
  lemma UnexpiredIdempotent(jobs: seq<InitiatedJob>, now: int)
    ensures Unexpired(Unexpired(jobs, now), now) == Unexpired(jobs, now)
  {
    FilterIdempotent(jobs, (j: InitiatedJob) => Fresh(j, now));
  }

  /** When every record is less than a day old, expiry changes nothing. */
  lemma UnexpiredKeepsFresh(jobs: seq<InitiatedJob>, now: int)
    requires forall j :: j in jobs ==> now - j.timestamp < TwentyFourHours
    ensures Unexpired(jobs, now) == jobs
  {
    FilterKeepsAll(jobs, (j: InitiatedJob) => Fresh(j, now));
  }

  /** Rust's `str::split` on a single character: the pieces between
      separators, including empty ones at either end. */
  function Split(s: string, sep: char): (parts: seq<string>)
    ensures |parts| > 0
    ensures forall k :: 0 <= k < |parts| ==> sep !in parts[k]
  {
    if s == [] then [[]]
    else
      var rest := Split(s[1..], sep);
      if s[0] == sep then [[]] + rest else [[s[0]] + rest[0]] + rest[1..]
  }

  /** The pieces glued back together with the separator between them. */
  function Join(parts: seq<string>, sep: char): string
    requires |parts| > 0
  {
    if |parts| == 1 then parts[0] else parts[0] + [sep] + Join(parts[1..], sep)
  }

  /** Splitting and joining again gives the original text. */
  lemma {:induction false} JoinSplit(s: string, sep: char)
    ensures Join(Split(s, sep), sep) == s
  {
    if s != [] {
      JoinSplit(s[1..], sep);
      var rest := Split(s[1..], sep);
      if s[0] == sep {
        assert ([[]] + rest)[1..] == rest;
      } else {
        var parts := [[s[0]] + rest[0]] + rest[1..];
        if |rest| > 1 {
          assert parts[1..] == rest[1..];
        }
      }
    }
  }

  lemma SplitCons(c: char, s: string, sep: char)
    ensures Split([c] + s, sep) ==
      if c == sep then [[]] + Split(s, sep) else [[c] + Split(s, sep)[0]] + Split(s, sep)[1..]
  {
    assert ([c] + s)[1..] == s;
  }

  /** Text without the separator in front only lengthens the first piece. */
  lemma {:induction false} SplitPrefix(p: string, s: string, sep: char)
    requires sep !in p
    ensures Split(p + s, sep) == [p + Split(s, sep)[0]] + Split(s, sep)[1..]
    decreases |p|
  {
    if p == [] {
      assert p + s == s;
      assert p + Split(s, sep)[0] == Split(s, sep)[0];
    } else {
      assert p + s == [p[0]] + (p[1..] + s);
      assert sep !in p[1..] by {
        assert forall x :: x in p[1..] ==> x in p;
      }
      assert p[0] in p;
      SplitCons(p[0], p[1..] + s, sep);
      SplitPrefix(p[1..], s, sep);
      assert [p[0]] + (p[1..] + Split(s, sep)[0]) == p + Split(s, sep)[0];
    }
  }

  /** Pieces without the separator come back from splitting their join. */
  lemma {:induction false} SplitJoin(parts: seq<string>, sep: char)
    requires |parts| > 0
    requires forall k :: 0 <= k < |parts| ==> sep !in parts[k]
    ensures Split(Join(parts, sep), sep) == parts
    decreases |parts|
  {
    if |parts| == 1 {
      SplitPrefix(parts[0], [], sep);
      assert parts[0] + [] == parts[0];
    } else {
      var rest := Join(parts[1..], sep);
      assert Join(parts, sep) == parts[0] + ([sep] + rest);
      SplitPrefix(parts[0], [sep] + rest, sep);
      SplitCons(sep, rest, sep);
      SplitJoin(parts[1..], sep);
      assert parts[0] + [] == parts[0];
      assert parts == [parts[0]] + parts[1..];
    }
  }

  /** How the vault is read from the job location (shared.rs:249-253). */
  datatype VaultParse = MalformedUrl | IndexOutOfBounds | Vault(name: string)

  /** The location is split on '/'. Fewer than 3 pieces hit the "malformed
      url" panic; exactly 3 pass that guard and then panic on the index [3];
      otherwise the vault is the piece at index 3. */
  function ParseVault(location: string): (v: VaultParse)
    ensures v.MalformedUrl? <==> |Split(location, '/')| < 3
    ensures v.IndexOutOfBounds? <==> |Split(location, '/')| == 3
    ensures v.Vault? ==> |Split(location, '/')| > 3 && v.name == Split(location, '/')[3]
  {
    var urlParts := Split(location, '/');
    if |urlParts| < 3 then MalformedUrl
    else if |urlParts| == 3 then IndexOutOfBounds
    else Vault(urlParts[3])
  }

  /** A job location as the service returns it:
      "/<account>/vaults/<vault>/jobs/<job id>". */
  function JobLocation(account: string, vault: string, jobId: string): string
  {
    "/" + account + "/vaults/" + vault + "/jobs/" + jobId
  }

  lemma JobLocationPieces(account: string, vault: string, jobId: string)
    ensures JobLocation(account, vault, jobId) == Join(["", account, "vaults", vault, "jobs", jobId], '/')
  {
    var parts: seq<string> := ["", account, "vaults", vault, "jobs", jobId];
    var tail := parts[1..];
    assert tail == [account, "vaults", vault, "jobs", jobId];
    assert Join(tail[4..], '/') == jobId;
    assert tail[3..][1..] == tail[4..];
    assert Join(tail[3..], '/') == "jobs" + ['/'] + jobId;
    assert tail[2..][1..] == tail[3..];
    assert Join(tail[2..], '/') == vault + ['/'] + ("jobs" + ['/'] + jobId);
    assert tail[1..][1..] == tail[2..];
    assert Join(tail[1..], '/') == "vaults" + ['/'] + (vault + ['/'] + ("jobs" + ['/'] + jobId));
    assert Join(tail, '/') == account + ['/'] + ("vaults" + ['/'] + (vault + ['/'] + ("jobs" + ['/'] + jobId)));
    assert Join(parts, '/') == "" + ['/'] + Join(tail, '/');
  }

  /** The vault of a job location is the one it names. */
  lemma ParseVaultOfJobLocation(account: string, vault: string, jobId: string)
    requires '/' !in account && '/' !in vault && '/' !in jobId
    ensures ParseVault(JobLocation(account, vault, jobId)) == Vault(vault)
  {
    JobLocationPieces(account, vault, jobId);
    SplitJoin(["", account, "vaults", vault, "jobs", jobId], '/');
  }

  /** A location with exactly two separators passes the guard and still
      fails at the index. */
  lemma ParseVaultThreePieces(a: string, b: string, c: string)
    requires '/' !in a && '/' !in b && '/' !in c
    ensures ParseVault(a + "/" + b + "/" + c) == IndexOutOfBounds
  {
    var parts: seq<string> := [a, b, c];
    assert Join(parts, '/') == a + "/" + b + "/" + c by {
      assert Join(parts[2..], '/') == c;
      assert Join(parts[1..], '/') == b + "/" + c by {
        assert parts[1..][1..] == parts[2..];
      }
    }
    SplitJoin(parts, '/');
  }

  /** The outcome of save_job_output: the record was written, or the program
      panicked before touching the ledger. */
  datatype SaveOutcome = Saved | Panicked(parse: VaultParse)

  /** jobs.json. */
  class JobLedger {
    var file: LedgerFile

    constructor(initial: LedgerFile)
      ensures file == initial
    {
      file := initial;
    }

    /** get_jobs (shared.rs:211-227): a missing file and a file that does not
        decode both read as the empty list. */
    method GetJobs() returns (jobs: seq<InitiatedJob>)
      ensures file.Jobs? ==> jobs == file.entries
      ensures file.Missing? || file.Corrupt? ==> jobs == []
    {
      match file {
        case Jobs(entries) => jobs := entries;
        case Missing => jobs := [];
        case Corrupt => jobs := [];
      }
    }

    /** job_writer (shared.rs:229-240): the file is created or replaced with
        the given list. */
    method JobWriter(jobs: seq<InitiatedJob>)
      modifies this
      ensures file == Jobs(jobs)
    {
      file := Jobs(jobs);
    }

    /** delete_job_from_local (shared.rs:132-138). */
    method DeleteJobFromLocal(jobId: string)
      modifies this
      ensures file == Jobs(RemoveJob(StoredJobs(old(file)), jobId))
    {
      var jobs := GetJobs();
      jobs := RemoveJob(jobs, jobId);
      JobWriter(jobs);
    }

    /** delete_expired_jobs_from_local (shared.rs:140-149), with the clock
        read once as `now`. */
    method DeleteExpiredJobsFromLocal(now: int)
      modifies this
      ensures file == Jobs(Unexpired(StoredJobs(old(file)), now))
    {
      var jobs := GetJobs();
      jobs := Unexpired(jobs, now);
      JobWriter(jobs);
    }

    /** save_job_output (shared.rs:242-267) for an initiated job with the given
        location and id, at time `now`. A location the vault cannot be read
        from panics and leaves the ledger as it was; otherwise exactly one
        record is appended after the existing ones, even when a record with
        the same job id is already there. */
    method SaveJobOutput(location: string, jobId: string, now: int, jobType: JobType)
      returns (outcome: SaveOutcome)
      modifies this
      ensures ParseVault(location).Vault? ==>
        outcome == Saved &&
        file == Jobs(StoredJobs(old(file)) + [InitiatedJob(location, jobId, ParseVault(location).name, now, jobType)])
      ensures !ParseVault(location).Vault? ==> outcome == Panicked(ParseVault(location)) && file == old(file)
    {
      var urlParts := Split(location, '/');
      if |urlParts| < 3 {
        return Panicked(MalformedUrl);
      }
      if |urlParts| == 3 {
        return Panicked(IndexOutOfBounds);
      }
      var vault := urlParts[3];
      var record := InitiatedJob(location, jobId, vault, now, jobType);
      var jobs := GetJobs();
      jobs := jobs + [record];
      JobWriter(jobs);
      return Saved;
    }
  }

  /** Saving the same initiated job twice leaves two records with that id. */
  method SaveTwiceKeepsBoth(account: string, vault: string, jobId: string, now: int)
    returns (jobs: seq<InitiatedJob>)
    requires '/' !in account && '/' !in vault && '/' !in jobId
    ensures |jobs| == 2 && jobs[0] == jobs[1] && jobs[0].jobId == jobId && jobs[0].vault == vault
  {
    var location := JobLocation(account, vault, jobId);
    ParseVaultOfJobLocation(account, vault, jobId);
    var ledger := new JobLedger(Missing);
    var first := ledger.SaveJobOutput(location, jobId, now, Retrieval);
    var second := ledger.SaveJobOutput(location, jobId, now, Retrieval);
    jobs := ledger.GetJobs();
  }
}
