# basmati core, modelled in Dafny

basmati is a command-line client for Amazon S3 Glacier. This project models
and proves properties of its core:

- **Multipart upload.** `split_file` cuts an archive into part files of at
  most `CHUNK_SIZE` (1 MiB) bytes, named `part_NN.bin`. `send_files` reads
  the parts back in file-name order, sends each one with its byte range and
  checksum, and queues one SHA-256 digest per part. `tree_hash` reduces those
  digests to the archive's SHA-256 tree hash: it pairs neighbours level by
  level and carries an odd digest up unchanged.
- **The local job ledger** `jobs.json`. It lists the jobs this client has
  initiated. Every operation reads the whole list and writes it back.
- **The job polling loops**: `describe_job_loop`, and the inline loops of
  `download_archive_by_id` and `do_inventory`.
- **The terminal menus' cursor** (`Events`), the archive selection toggle and
  the `InfiniteIndeces` counter.

Modules:

| file | module | models |
|---|---|---|
| common.dfy | Common | bytes, `Option`, the order-keeping `filter(..).collect()`, concatenation of chunks |
| tree_hash.dfy | TreeHash | `tree_hash`, proved equal to a level-by-level reference reduction |
| part_names.dfy | PartNames | `to_string`, `two_digit_index`, part file names, Rust's string order, `sort_by` on file names |
| multipart_upload.dfy | MultipartUpload | `split_file`, `send_files` |
| ledger.dfy | Ledger | `get_jobs`, `job_writer`, `delete_job_from_local`, `delete_expired_jobs_from_local`, `save_job_output` |
| polling.dfy | Polling | `describe_job_output`, `describe_job_loop`, and the rounds shared by the two inline polling loops |
| download.dfy | Download | the polling loop of `download_archive_by_id` |
| inventory.dfy | Inventory | the polling loop of `do_inventory` |
| cursor.dfy | Cursor | `Events` (both definitions), the space-key toggle, `InfiniteIndeces` |

How the environment is represented:

- **SHA-256** is the parameter `h: Bytes -> Digest`. Nothing is assumed
  about it.
- **Hex.** The source keeps digests as hex text and hex-decodes the
  concatenation of two digests before hashing. Hex encoding and decoding are
  taken to be inverse, so a digest is its bytes and a parent is
  `h(left + right)`.
- **Service requests** are oracles:
  - `initiated` and `uploadOk(k)` say whether a request succeeds;
  - a polling loop receives a finite sequence of `Round`s, one per describe
    request. Each round holds:
    - the describe reply;
    - whether the output file could be created;
    - the `get_job_output` reply: a failure, or a body stream of chunks
      that ends or fails.
- **Infinite polling.** Where the source would poll forever, the model stops
  when the rounds run out and reports `StillPolling` or `StillWaiting`.
- **Sleeps** are counted and have no other effect.
- **Files.** `split_file` reads through a function `read(pos)`, the number of
  bytes one read at offset `pos` delivers. The part files are returned as a
  list of `DirEntry(name, contents)`. The directory listing that
  `send_files` sorts is an arbitrary list of entries. `jobs.json` is the
  field `file` of class `Ledger.JobLedger`: `Missing`, `Corrupt` (text
  that does not parse as a job list), or `Jobs(entries)`.
- **Time.** The wall clock is the parameter `now`.

Three facts about the code as written are stated and proved as properties of
the model rather than corrected:

- **Sort order from part 101 on.** Sorting part names as strings gives index
  order only up to 100 parts (`SortedPartsInIndexOrder`). From 101 parts on,
  "part_100.bin" sorts before "part_11.bin" (`SortedPartsOutOfOrderFrom101`),
  so the digests are queued out of file order.
- **An empty archive never finishes uploading.** `split_file` writes no part
  for an empty file (`EmptyFileNoParts`). `send_files` then calls
  `tree_hash` on an empty list (multipart_upload.rs:112). With an empty list,
  `tree_hash` keeps taking its queue-empty, pairs-empty branch and never
  returns (multipart_upload.rs:164-172). The model therefore requires a
  non-empty input for `TreeHash.TreeHash` and a non-empty directory for
  `MultipartUpload.SendFiles`.
- **The vault guard lets three pieces through.** `save_job_output` rejects
  locations with fewer than 3 '/'-separated pieces. A location with exactly 3
  pieces passes that check and then fails when it reads piece `[3]`
  (`ParseVaultThreePieces`).

## Model

| member | source | states |
|---|---|---|
| Common.Filter | src/shared.rs:134 | the kept elements are exactly the elements that satisfy the predicate, and there are no more of them than in the input |
| Common.FilterConcat | src/shared.rs:134 | filtering a concatenation is concatenating the filtered halves, so the survivors keep their relative order |
| Common.FilterKeepsAll | src/shared.rs:134 | a filter that every element passes returns the list unchanged |
| Common.FilterIdempotent | src/shared.rs:142-145 | filtering twice with the same predicate is filtering once |
| TreeHash.TreeHashSpec | src/multipart_upload.rs:147-199 | the reference reduction: apply `Level` until one digest is left; `TreeHash.TreeHash` is proved equal to it, and `LevelsReachOne` gives its level count |
| TreeHash.Level | src/multipart_upload.rs:153-161 | one level has ceil(n/2) digests |
| TreeHash.LevelAt | src/multipart_upload.rs:153-161 | parent i is the hash of digests 2i and 2i+1; when the count is odd, the last parent is the last digest, unchanged |
| TreeHash.ThreeDigests | src/multipart_upload.rs:147-199 | three digests [a, b, c] give the level [h(a++b), c] and the tree hash h(h(a++b)++c) |
| TreeHash.Levels | src/multipart_upload.rs:164-172 | the digests left after k levels; `LevelsReachOne` proves what it reaches |
| TreeHash.LevelsReachOne | src/multipart_upload.rs:164-172 | after Rounds(n) levels the reduction of n digests is down to one digest, every earlier level still holds more than one, and that one digest is the tree hash |
| TreeHash.RoundsIsCeilLog2 | src/multipart_upload.rs:164-172 | Rounds(n), the number of levels the reduction takes, is ceil(log2 n): the least k with n <= 2^k |
| TreeHash.EndSingleParent | src/multipart_upload.rs:164-169 | when a level ends with a single parent and nothing left over, that parent is the tree hash |
| TreeHash.EndShortcut | src/multipart_upload.rs:174-181 | hashing the one parent directly with the one leftover digest gives the same result as one more level of the reduction |
| TreeHash.EndLone | src/multipart_upload.rs:182-185 | a single leftover digest with no parents (a one-digest input) is returned without hashing |
| TreeHash.StepTake | src/multipart_upload.rs:193-197 | moving the front of `queue` onto `pairs` keeps the loop state a partial level of the reduction |
| TreeHash.StepPair | src/multipart_upload.rs:153-161 | hashing the two digests in `pairs` appends their parent to `inter` and keeps the loop state a partial level |
| TreeHash.StepNextLevel | src/multipart_upload.rs:164-172 | an even level whose parents are not a single digest holds at least two parents, and the next level starts from them |
| TreeHash.StepCarry | src/multipart_upload.rs:186-190 | an odd leftover digest is carried after the level's parents into the next level |
| TreeHash.TreeHash | src/multipart_upload.rs:147-199 | for every non-empty input the loop terminates; the result equals the level-by-level reduction `TreeHashSpec`; a one-digest input is returned unchanged |
| PartNames.NatToString | src/multipart_upload.rs:19 | `to_string` produces at least one character |
| PartNames.NatToStringDigits | src/multipart_upload.rs:19 | `to_string` produces only decimal digits |
| PartNames.NatToStringRoundTrip | src/multipart_upload.rs:19 | reading the decimal text back gives the number |
| PartNames.TwoDigitIndex | src/multipart_upload.rs:15-21 | the index text has at least two characters and starts with '0' below 10; `TwoDigitIndexDigits` and `TwoDigitIndexRoundTrip` give its exact digits and its inverse |
| PartNames.TwoDigitIndexDigits | src/multipart_upload.rs:15-21 | below 100 the index is exactly two digits, tens then units; from 10 on it is the plain decimal text |
| PartNames.TwoDigitIndexRoundTrip | src/multipart_upload.rs:15-21 | the padded text reads back as the index, so distinct parts get distinct names |
| PartNames.PartName | src/multipart_upload.rs:34 | "part_" + two_digit_index(i) + ".bin"; `PartNamesOrderedBelow100` and `PartName100SortsBefore11` give its sort order |
| PartNames.LexLess | src/multipart_upload.rs:77 | the comparison `file_name().cmp` makes, lexicographic by character; `LexLessTransitive`, `LexLessTotal` and `LexLessAsymmetric` make it a strict total order |
| PartNames.LexLessTransitive | src/multipart_upload.rs:77 | the string order used by the sort is transitive |
| PartNames.LexLessTotal | src/multipart_upload.rs:77 | any two distinct strings are ordered one way or the other |
| PartNames.LexLessAsymmetric | src/multipart_upload.rs:77 | the string order is asymmetric |
| PartNames.LexLessCommonPrefix | src/multipart_upload.rs:34 | a shared "part_" prefix does not change how two names compare |
| PartNames.PartNamesOrderedBelow100 | src/multipart_upload.rs:15-21 | for indices i < j < 100, the name of part i sorts before the name of part j |
| PartNames.PartName100SortsBefore11 | src/multipart_upload.rs:34 | "part_100.bin" sorts before "part_11.bin" |
| PartNames.InsertByName | src/multipart_upload.rs:77 | inserting into a name-sorted list gives a name-sorted list with one more element, the same entries plus the new one |
| PartNames.SortByName | src/multipart_upload.rs:76-77 | the result is a permutation of the listing (same multiset, same length) and is sorted by file name |
| PartNames.SortedIsUnique | src/multipart_upload.rs:76-77 | a collection of entries with distinct names has exactly one name-sorted arrangement |
| MultipartUpload.SplitFile | src/multipart_upload.rs:23-42 | for any read sizes between 1 and CHUNK_SIZE bytes: part i is named "part_" + two_digit_index(i) + ".bin"; every part holds 1 to CHUNK_SIZE bytes; part i holds exactly the bytes of the read that starts where parts 0..i-1 end; the parts laid end to end in index order are the file; the returned size is the file's length |
| MultipartUpload.PartIsRead | src/multipart_upload.rs:28-38 | in parts written one read each, part i holds the read at the offset where the parts before it end |
| MultipartUpload.FullReadsFullParts | src/multipart_upload.rs:28-38 | when every read fills the CHUNK_SIZE buffer while a chunk's worth remains, every part `split_file` writes except the last is exactly CHUNK_SIZE bytes, the premise of `RangesTile` |
| MultipartUpload.EmptyFileNoParts | src/multipart_upload.rs:28-41 | split parts lay end to end to no bytes exactly when there are no parts, so an empty file gives no parts |
| MultipartUpload.UploadFor | src/multipart_upload.rs:87-100 | the request for sorted entry k starts at k·CHUNK_SIZE, its range covers exactly the part's size, and it carries the part's name, its own digest and the oracle's accept flag |
| MultipartUpload.LeafDigests | src/multipart_upload.rs:83-85 | one digest per entry, in list order, each the hash of that entry's bytes |
| MultipartUpload.SendFiles | src/multipart_upload.rs:58-116 | a failed initiate returns the error; otherwise every sorted entry k is sent with range k·CHUNK_SIZE .. k·CHUNK_SIZE+size−1, its own checksum and the oracle's accept flag; the tree hash covers the digests of all sorted entries, including those whose upload failed |
| MultipartUpload.JoinedFullPrefix | src/multipart_upload.rs:90-94 | k full parts hold k·CHUNK_SIZE bytes |
| MultipartUpload.JoinedConcat | src/multipart_upload.rs:37 | the bytes of two lists of parts laid end to end are the bytes of each list laid end to end |
| MultipartUpload.RangesTile | src/multipart_upload.rs:90-94 | when every part but the last is full, the range of part k begins where the earlier parts' bytes end and ends just before the next part begins, the last range ends at the archive's last byte, and the bytes in that range of the archive are exactly part k's bytes |
| MultipartUpload.SortedPartsInIndexOrder | src/multipart_upload.rs:76-77 | up to 100 parts, sorting any listing of split_file's parts gives them back in index order |
| MultipartUpload.SortedPartsOutOfOrderFrom101 | src/multipart_upload.rs:76-77 | from 101 parts on, the sorted listing is not in index order |
| MultipartUpload.UploadHashesChunksInFileOrder | src/multipart_upload.rs:83-85 | up to 100 parts, the digests queued are the digests of the file's consecutive chunks in file order |
| Ledger.StoredJobs | src/shared.rs:217-226 | the list a ledger file reads as; `JobLedger.GetJobs` states the cases |
| Ledger.Fresh | src/shared.rs:144 | a record is kept when now − timestamp < 86400; `Unexpired` and its lemmas use it |
| Ledger.RemoveJob | src/shared.rs:134 | the kept records are exactly the records whose job id differs from the argument |
| Ledger.Unexpired | src/shared.rs:142-145 | the kept records are exactly the records with now − timestamp < 86400 |
| Ledger.RemoveJobKeepsOrder | src/shared.rs:134 | the kept records stay in their order |
| Ledger.RemoveAbsentJob | src/shared.rs:134 | removing an id no record has leaves the list unchanged |
| Ledger.RemoveJobIdempotent | src/shared.rs:134 | removing the same id twice is removing it once |
| Ledger.UnexpiredKeepsOrder | src/shared.rs:142-145 | the unexpired records stay in their order |
| Ledger.UnexpiredIdempotent | src/shared.rs:142-145 | a second expiry at the same time changes nothing |
| Ledger.UnexpiredKeepsFresh | src/shared.rs:142-145 | when every record is younger than a day, expiry changes nothing |
| Ledger.Split | src/shared.rs:249 | splitting on '/' yields at least one piece, none containing '/' |
| Ledger.JoinSplit | src/shared.rs:249 | joining the pieces with '/' gives back the location |
| Ledger.SplitJoin | src/shared.rs:249 | splitting a '/'-join of '/'-free pieces gives back the pieces |
| Ledger.ParseVault | src/shared.rs:249-253 | fewer than 3 pieces hit the "malformed url" panic; exactly 3 pieces pass the guard and fail at the index [3]; otherwise the vault is piece 3 |
| Ledger.ParseVaultOfJobLocation | src/shared.rs:249-253 | the vault read from a location "/account/vaults/vault/jobs/id" is that vault |
| Ledger.ParseVaultThreePieces | src/shared.rs:250-253 | a location with exactly two '/' passes the guard and still fails at the index |
| Ledger.JobLedger.GetJobs | src/shared.rs:211-227 | a decoded file yields its records; a missing file or one that does not decode yields the empty list |
| Ledger.JobLedger.JobWriter | src/shared.rs:229-240 | the file afterwards holds exactly the given list |
| Ledger.JobLedger.DeleteJobFromLocal | src/shared.rs:132-138 | the file afterwards holds the records read before whose job id differs from the argument, in their order |
| Ledger.JobLedger.DeleteExpiredJobsFromLocal | src/shared.rs:140-149 | the file afterwards holds the records read before that are younger than a day at `now`, in their order |
| Ledger.JobLedger.SaveJobOutput | src/shared.rs:242-267 | with a readable vault, exactly one record (location, id, vault, now, type) is appended after the existing records, unchanged; otherwise the program panics and the file is untouched |
| Ledger.SaveTwiceKeepsBoth | src/shared.rs:254-265 | saving the same job twice leaves two identical records: duplicate ids are not rejected |
| Polling.DescribeJobOutput | src/shared.rs:196-209 | a failed request is an error; a successful one is Done exactly when the job has completed, with its output; a job that has not completed gives Pending with no output; never Failed |
| Polling.FirstSettled | src/shared.rs:176-193 | the position of the first reply that is not "not completed"; every earlier reply is "not completed" |
| Polling.DescribeJobLoop | src/shared.rs:173-194 | one sleep per leading "not completed" reply; the first completed reply returns its output; the first failed request returns an error |
| Polling.FirstSettledIgnoresLater | src/shared.rs:176-193 | replies after the one that ends the loop are never looked at |
| Polling.PendingThenCompleted | src/shared.rs:181-187 | n "not completed" replies and then a completed one give n sleeps before the output |
| Polling.FirstExit | src/download.rs:125-169 | the position of the first round that ends the loop: a failed describe, or a completed job whose output file could be created |
| Polling.EndsLoop | src/download.rs:126-168 | a round ends the loop on a failed describe or a completed job whose file was created, and never on a job that has not completed |
| Polling.CountWaits | src/download.rs:156-161 | there are no more sleeps than rounds |
| Polling.CountWaitsCreateFailures | src/download.rs:131-155 | rounds of a completed job whose file cannot be created neither end the loop nor sleep |
| Polling.FirstExitIgnoresLater | src/download.rs:125-169 | rounds after the one that ends the loop are never looked at |
| Polling.WaitsThenEnds | src/inventory.rs:61-66 | n rounds of a job that has not completed, then a round that ends the loop: the loop stops there after n sleeps |
| Download.DownloadArchiveById | src/download.rs:95-176 | a failed initiate returns Ok(()) without polling; one describe per round up to the first that ends the loop, with a sleep only after "not completed"; a failed describe returns Ok(()); for a completed job, a failed get_job_output returns Ok(()) with an empty "archive", and otherwise every chunk is written in stream order, with Err only if the stream fails |
| Download.WroteArchive | src/download.rs:140-153 | after the file is created, "archive" holds something and the function returns Err exactly when the body stream fails |
| Download.DownloadAfterWaits | src/download.rs:125-161 | n "not completed" rounds and then a completed job whose stream ends give n sleeps, Ok(()), and "archive" holding the chunks in order |
| Inventory.DoInventory | src/inventory.rs:8-81 | a failed initiate returns Ok(()) without polling; one describe per round up to the first that ends the loop, with a sleep only after "not completed"; a failed describe or get_job_output returns Ok(()) and writes nothing more; a failing body leaves inventory.json empty and returns Err; otherwise the whole body is written |
| Inventory.WroteInventory | src/inventory.rs:48-58 | after the file is created, inventory.json holds something and the function returns Err exactly when the body fails |
| Inventory.InventoryAfterWaits | src/inventory.rs:33-66 | n "not completed" rounds and then a completed job give n sleeps, Ok(()), and inventory.json holding the whole body |
| Cursor.NextIndex | src/shared.rs:90-102 | from no selection, `next` selects 0; with a selection on a non-empty list it stays within the list; it underflows exactly on an empty list with a selection |
| Cursor.PreviousIndex | src/shared.rs:103-115 | from no selection, `previous` selects 0; it underflows exactly at position 0 of an empty list; from a position inside a non-empty list it stays inside |
| Cursor.NextWraps | src/download.rs:54-60 | `next` goes from the last position to 0 and from position i to i+1 otherwise |
| Cursor.PreviousWraps | src/download.rs:67-73 | `previous` goes from 0 to len−1 and from position i to i−1 otherwise |
| Cursor.NextPreviousInverse | src/shared.rs:90-115 | inside a non-empty list, `previous` undoes `next` and `next` undoes `previous` |
| Cursor.NextTimesFrom | src/shared.rs:90-102 | up to len presses of `next` from position i reach i+n, wrapping past the end once |
| Cursor.NextCycle | src/shared.rs:90-102 | len presses of `next` come back to the starting position |
| Cursor.Events.New | src/shared.rs:83-88 | the shared.rs cursor starts with position 0 selected |
| Cursor.Events.Unselected | src/download.rs:45-50 | the download.rs cursor starts with nothing selected |
| Cursor.Events.Next | src/shared.rs:90-102 | the selection becomes the position `NextIndex` gives, or, on an empty list, the overflow-checked build panics on the underflow; a valid selection on a non-empty list stays valid |
| Cursor.Events.Previous | src/shared.rs:103-115 | the selection becomes the position `PreviousIndex` gives, or, on an empty list, the overflow-checked build panics on the underflow; a valid selection on a non-empty list stays valid |
| Cursor.Events.Choose | src/download.rs:79-84 | no selection gives None; a selection inside the list gives that item; a selection outside the list panics |
| Cursor.DownloadMenuFirstMove | src/download.rs:45-84 | the download menu chooses nothing before the cursor moves, and the first item after the first `next` |
| Cursor.HasId | src/shared.rs:476-481 | some selected archive has this id, the `contains` test on the selected ids; `ToggleSelection` is stated through it |
| Cursor.ToggleSelection | src/shared.rs:473-491 | after the space key the archive's id is selected exactly when it was not before; an unselected archive is appended at the end; a selected id is removed with every entry of that id and the other archives keep their order (the `Filter` of the selection, see `FilterConcat`) |
| Cursor.ToggleKeepsUnique | src/shared.rs:476-490 | toggling keeps the selected ids distinct |
| Cursor.FilterKeepsUnique | src/shared.rs:483-487 | removing every archive with one id keeps the selected ids distinct |
| Cursor.ToggleTwiceRestores | src/shared.rs:473-491 | selecting an unselected archive and toggling it again restores the selection |
| Cursor.InfiniteIndeces.constructor | src/shared.rs:526-528 | a new counter holds 0, so its first `next` returns 1 |
| Cursor.InfiniteIndeces.Next | src/shared.rs:529-532 | each call returns one more than the previous value |
| Cursor.FirstElevenIndeces | src/shared.rs:534-548 | a fresh counter returns 1, 2, …, 11 on its first eleven calls |

## Left out

- AWS requests: the initiate, upload, complete, describe and get-output
  requests are results supplied by the caller. `complete_multipart_upload`,
  `create.rs`, `list_vaults.rs` and `delete_archive.rs` only forward those
  requests and are not part of this model. `do_multipart_upload`
  (multipart_upload.rs:201-238) runs `split_file`, `send_files`,
  `complete_multipart_upload` and `clean_splits` in turn, prints any error
  and returns `Ok(())` for every outcome. That sequencing is not part of
  this model; `split_file` and `send_files` themselves are.
- The terminal interface: `confirm`, `ui`, `release_terminal`, the draw and
  key loops of `select_multiple_archives` and `do_download`, and the reading
  of inventory.json there. Only the cursor and the space-key toggle are
  modelled.
- `main.rs` (argument dispatch) is not part of this model.
- SHA-256 and hex encoding are not computed. See the note above on how they
  are represented.
- File-system effects: `clean_splits`, `create_if_not_exists`,
  `basmati_directory` and the home-directory lookup. I/O errors from open,
  read, write and metadata calls, and the panics of their `unwrap` and
  `expect`, are not modelled. The one exception is `File::create` for the
  downloaded archive and inventory.json (download.rs:131, inventory.rs:39):
  its failure is modelled per polling round (`Round.fileCreated`), and the
  loop then describes again without sleeping. Otherwise the model's files
  always open and writes always complete.
- `Ledger.JobLedger.GetJobs`: a jobs.json that is not valid UTF-8 is not
  modelled. There, `read_to_string(..)?` (shared.rs:220) makes `get_jobs`
  return Err: the two delete operations then return Err without writing,
  and `save_job_output` panics at shared.rs:262. `Corrupt` covers only text
  that does not parse as a job list.
- The JSON encoding of jobs.json is treated as a faithful round trip.
- Sleeping, the wall clock and async execution. `delete_expired_jobs_from_local`
  reads the clock once per record; the model uses one `now` for the whole
  pass.
- `get_job_output` in shared.rs (the streaming helper with a possibly
  partial `file.write`) is not part of this model. Its callers are not in
  the core.
- `MultipartUpload.SendFiles`: the directory must be non-empty when the
  initiate request succeeds. On an empty directory the source calls
  `tree_hash` on an empty list, which never returns.
- `MultipartUpload.SendFiles`: the upload range end
  `(index * CHUNK_SIZE + size) - 1` is computed as an unbounded integer. It
  can only underflow `u64` for an empty part file at index 0, where the
  model gives -1 instead. An empty part at a later index k gets the end
  k * CHUNK_SIZE - 1 in both. `split_file` never writes an empty part.
- `MultipartUpload.SendFiles`: a failure to read the directory (the panic at
  multipart_upload.rs:114) and unreadable entries (dropped by
  `filter_map(Result::ok)`) are not modelled.
- `TreeHash.TreeHash`: requires a non-empty input. On an empty input the
  source cycles forever through its queue-empty, pairs-empty branch. The
  model does not state that non-termination.
- `MultipartUpload.SplitFile`: `read` delivers between 1 and CHUNK_SIZE
  bytes while bytes remain, and none at the end. `read` itself does not
  promise to fill the buffer, so the range tiling in `RangesTile` is proved
  for the parts `split_file` writes only when every read fills it
  (`FullReadsFullParts`). Which reads of a real file come back short is
  not modelled.
- Integer widths: `usize` and `u64` arithmetic (indices, offsets, the 1-hour
  sleep, timestamps as `i64`) is unbounded in the model. The model
  represents two underflows the source can reach. `len() - 1` on an empty
  menu is modelled as `Underflow`. The upload range end
  `(index * CHUNK_SIZE + size) - 1` for an empty part at index 0 is
  modelled as -1 (see the `MultipartUpload.SendFiles` line above).
- `Cursor.Events.Next`, `Cursor.Events.Previous`: `Underflow` is the panic of
  a build with overflow checks (the debug build). A release build wraps
  instead: `next` on an empty menu selects 1 and `previous` selects
  usize::MAX, and the panic comes later, at `self.items[i]` in `choose`.
  The model does not capture the wrapped release-build selection.
- Polling loops that never end: the model follows a finite sequence of
  rounds and reports `StillPolling` or `StillWaiting` when it runs out.
