/** Cutting an archive into part files and sending them (multipart_upload.rs):
    `split_file` writes the file out in chunks of at most CHUNK_SIZE bytes,
    and `send_files` reads the part files back in name order, queues one
    digest per part, sends each part with its byte range, and returns the
    tree hash of the queued digests. */
module MultipartUpload {
  import opened Common
  import opened PartNames
  import TreeHash

  /** CHUNK_SIZE (multipart_upload.rs:13): 1 MiB. */
  const ChunkSize: nat := 1048576

  /** The bytes of each entry, in list order. */
  function Contents(es: seq<DirEntry>): (cs: seq<Bytes>)
    ensures |cs| == |es|
    ensures forall k :: 0 <= k < |es| ==> cs[k] == es[k].contents
  {
    seq(|es|, k requires 0 <= k < |es| => es[k].contents)
  }

  /** The bytes of the entries laid end to end, in list order. */
  function Joined(es: seq<DirEntry>): Bytes
  {
    Concat(Contents(es))
  }

  lemma JoinedAppend(es: seq<DirEntry>, e: DirEntry)
    ensures Joined(es + [e]) == Joined(es) + e.contents
  {
    assert Contents(es + [e]) == Contents(es) + [e.contents];
    ConcatAppend(Contents(es), e.contents);
  }

  /** What one call of `read` into the CHUNK_SIZE buffer may return while
      bytes remain: at least one byte and at most a buffer's worth, and never
      past the end of the file. */
  ghost predicate ReadsChunks(file: Bytes, read: nat -> nat)
  {
    forall pos :: 0 <= pos < |file| ==> 1 <= read(pos) <= ChunkSize && pos + read(pos) <= |file|
  }

  /** Part i is named "part_" + two_digit_index(i) + ".bin" and holds between
      one byte and a chunk's worth. */
  ghost predicate SplitParts(parts: seq<DirEntry>)
  {
    forall i :: 0 <= i < |parts| ==> parts[i].name == PartName(i) && 0 < |parts[i].contents| <= ChunkSize
  }

  /** Where part i starts in the file: the length of the parts before it. */
  ghost function Offset(parts: seq<DirEntry>, i: nat): nat
    requires i <= |parts|
  {
    |Joined(parts[..i])|
  }

  /** Entry e holds exactly the bytes the read at offset o delivers. */
  ghost predicate ReadAt(file: Bytes, read: nat -> nat, o: nat, e: DirEntry)
  {
    o + read(o) <= |file| && e.contents == file[o..o + read(o)]
  }

  /** Each part holds exactly the bytes of one read: the read that starts
      where the parts before it end. */
  ghost predicate PartsAreReads(file: Bytes, read: nat -> nat, parts: seq<DirEntry>)
    decreases |parts|
  {
    parts == [] ||
      (var before := parts[..|parts| - 1];
       PartsAreReads(file, read, before) && ReadAt(file, read, |Joined(before)|, parts[|parts| - 1]))
  }

  /** Part i of parts that are one read each holds the read at its offset. */
  lemma {:induction false} PartIsRead(file: Bytes, read: nat -> nat, parts: seq<DirEntry>, i: nat)
    requires PartsAreReads(file, read, parts) && i < |parts|
    ensures ReadAt(file, read, Offset(parts, i), parts[i])
    decreases |parts|
  {
    var before := parts[..|parts| - 1];
    if i < |before| {
      PartIsRead(file, read, before, i);
      assert before[..i] == parts[..i];
    } else {
      assert parts[..i] == before;
    }
  }

  /** The state of split_file's loop after reading `pos` bytes: the parts
      written so far hold exactly those bytes, one read each. */
  ghost predicate Splitting(file: Bytes, read: nat -> nat, pos: nat, parts: seq<DirEntry>)
  {
    pos <= |file| && SplitParts(parts) && Joined(parts) == file[..pos] && PartsAreReads(file, read, parts)
  }

  lemma SplitPartsAppend(parts: seq<DirEntry>, e: DirEntry)
    requires SplitParts(parts) && e.name == PartName(|parts|) && 0 < |e.contents| <= ChunkSize
    ensures SplitParts(parts + [e])
  {
    var r := parts + [e];
    forall i | 0 <= i < |r|
      ensures r[i].name == PartName(i) && 0 < |r[i].contents| <= ChunkSize
    {
      if i < |parts| {
        assert r[i] == parts[i];
      }
    }
  }

  /** One more read, of n == read(pos) bytes, writes the next part. */
  lemma SplitStep(file: Bytes, read: nat -> nat, pos: nat, parts: seq<DirEntry>, n: nat)
    requires Splitting(file, read, pos, parts) && n == read(pos) && 0 < n <= ChunkSize && pos + n <= |file|
    ensures Splitting(file, read, pos + n, parts + [DirEntry(PartName(|parts|), file[pos..pos + n])])
  {
    var buffer := file[pos..pos + n];
    var e := DirEntry(PartName(|parts|), buffer);
    SplitPartsAppend(parts, e);
    JoinedAppend(parts, e);
    assert file[..pos + n] == file[..pos] + buffer;
    assert (parts + [e])[..|parts|] == parts;
  }

  /** split_file (multipart_upload.rs:23-42) on a file whose bytes are `file`.
      `read(pos)` is how many bytes the read starting at offset `pos`
      delivers; at the end of the file the read delivers none. The part files
      are returned in the order they are created. */
  method SplitFile(file: Bytes, read: nat -> nat) returns (size: nat, parts: seq<DirEntry>)
    requires ReadsChunks(file, read)
    ensures size == |file|
    ensures SplitParts(parts)
    ensures Joined(parts) == file
    ensures PartsAreReads(file, read, parts)
    ensures forall i :: 0 <= i < |parts| ==> ReadAt(file, read, Offset(parts, i), parts[i])
  {
    var pos := 0;
    var index := 0;
    parts := [];
    while true
      invariant Splitting(file, read, pos, parts) && index == |parts|
      decreases |file| - pos
    {
      var bytesRead := if pos < |file| then read(pos) else 0;
      if bytesRead == 0 {
        break;
      }
      var buffer := file[pos..pos + bytesRead];
      SplitStep(file, read, pos, parts, bytesRead);
      parts := parts + [DirEntry(PartName(index), buffer)];
      index := index + 1;
      pos := pos + bytesRead;
    }
    assert file[..pos] == file;
    forall i | 0 <= i < |parts|
      ensures ReadAt(file, read, Offset(parts, i), parts[i])
    {
      PartIsRead(file, read, parts, i);
    }
    size := |file|;
  }

  /** Reads that fill the buffer whenever a chunk's worth remains. */
  ghost predicate FullReads(file: Bytes, read: nat -> nat)
  {
    forall pos :: 0 <= pos < |file| ==> read(pos) == if |file| - pos < ChunkSize then |file| - pos else ChunkSize
  }

  /** When every read fills the buffer, split_file writes full parts except
      possibly the last, which is what `RangesTile` needs. */
  lemma FullReadsFullParts(file: Bytes, read: nat -> nat, parts: seq<DirEntry>)
    requires FullReads(file, read)
    requires SplitParts(parts) && Joined(parts) == file && PartsAreReads(file, read, parts)
    ensures forall i :: 0 <= i < |parts| - 1 ==> |parts[i].contents| == ChunkSize
  {
    forall i | 0 <= i < |parts| - 1
      ensures |parts[i].contents| == ChunkSize
    {
      var o := Offset(parts, i);
      PartIsRead(file, read, parts, i);
      JoinedSplitAt(parts, i);
      assert o + |parts[i].contents| < |file|;
    }
  }

  /** Part i starts where the parts before it end and is followed by at
      least one more byte when another part comes after it. */
  lemma JoinedSplitAt(parts: seq<DirEntry>, i: nat)
    requires i < |parts| - 1
    requires forall k :: 0 <= k < |parts| ==> 0 < |parts[k].contents|
    ensures |Joined(parts[..i])| + |parts[i].contents| < |Joined(parts)|
  {
    assert parts[..i + 1] == parts[..i] + [parts[i]];
    JoinedAppend(parts[..i], parts[i]);
    assert parts == parts[..i + 1] + parts[i + 1..];
    JoinedConcat(parts[..i + 1], parts[i + 1..]);
    assert parts[i + 1..] == [parts[i + 1]] + parts[i + 2..];
    JoinedConcat([parts[i + 1]], parts[i + 2..]);
    assert [] + [parts[i + 1]] == [parts[i + 1]];
    JoinedAppend([], parts[i + 1]);
  }

  /** An empty file gives no parts, since every part holds at least one
      byte; send_files then has no digests to hash. */
  lemma EmptyFileNoParts(parts: seq<DirEntry>)
    requires SplitParts(parts)
    ensures Joined(parts) == [] <==> parts == []
  {
    if parts != [] {
      var last := parts[|parts| - 1];
      assert parts == parts[..|parts| - 1] + [last];
      JoinedAppend(parts[..|parts| - 1], last);
    }
  }

  /** One `upload_multipart_part` request: the part's file name, the byte
      range it claims in the archive (the "bytes start-end" header), the checksum sent
      with it, and whether the service accepted it. */
  datatype PartUpload = PartUpload(name: string, rangeStart: nat, rangeEnd: int, checksum: TreeHash.Digest, accepted: bool)

  /** The outcome of send_files: the initiate request failed, or every part
      was attempted and the tree hash of their digests computed. */
  datatype SendResult = InitiateFailed | Sent(uploads: seq<PartUpload>, treeHash: TreeHash.Digest)

  /** The digest of each entry's bytes, in list order. */
  function LeafDigests(es: seq<DirEntry>, h: Bytes -> TreeHash.Digest): (ds: seq<TreeHash.Digest>)
    ensures |ds| == |es|
    ensures forall k :: 0 <= k < |es| ==> ds[k] == h(es[k].contents)
  {
    seq(|es|, k requires 0 <= k < |es| => h(es[k].contents))
  }

  /** The request send_files makes for the entry at position k of the sorted
      listing (multipart_upload.rs:87-100). */
  function UploadFor(k: nat, e: DirEntry, h: Bytes -> TreeHash.Digest, accepted: bool): (u: PartUpload)
    ensures u.rangeStart == k * ChunkSize
    ensures u.rangeEnd - u.rangeStart + 1 == |e.contents|
    ensures u.name == e.name && u.checksum == h(e.contents) && u.accepted == accepted
  {
    PartUpload(e.name, k * ChunkSize, k * ChunkSize + |e.contents| - 1, h(e.contents), accepted)
  }

  /** send_files (multipart_upload.rs:58-116) on the directory listing `dir`,
      in whatever order the directory yields it. `initiated` is whether the
      initiate request succeeded and `uploadOk(k)` whether the k-th part
      request does. An empty directory only reaches tree_hash, which never
      returns on an empty list, once the initiate request has succeeded. */
  method SendFiles(dir: seq<DirEntry>, h: Bytes -> TreeHash.Digest, initiated: bool, uploadOk: nat -> bool)
    returns (r: SendResult)
    requires initiated ==> |dir| > 0
    ensures r.InitiateFailed? <==> !initiated
    ensures r.Sent? ==> |r.uploads| == |dir|
    ensures r.Sent? ==> forall k :: 0 <= k < |dir| ==>
      r.uploads[k] == UploadFor(k, SortByName(dir)[k], h, uploadOk(k))
    ensures r.Sent? ==> r.treeHash == TreeHash.TreeHashSpec(LeafDigests(SortByName(dir), h), h)
  {
    if !initiated {
      return InitiateFailed;
    }
    var sorted := SortByName(dir);
    var shaVec: seq<TreeHash.Digest> := [];
    var uploads: seq<PartUpload> := [];
    for index := 0 to |sorted|
      invariant shaVec == LeafDigests(sorted[..index], h)
      invariant |uploads| == index
      invariant forall k :: 0 <= k < index ==> uploads[k] == UploadFor(k, sorted[k], h, uploadOk(k))
    {
      var entry := sorted[index];
      var size := |entry.contents|;
      var hash := h(entry.contents);
      assert sorted[..index + 1] == sorted[..index] + [entry];
      shaVec := shaVec + [hash];
      var accepted := uploadOk(index);
      var start := index * ChunkSize;
      var upload := PartUpload(entry.name, start, start + size - 1, hash, accepted);
      assert upload == UploadFor(index, entry, h, accepted);
      uploads := uploads + [upload];
    }
    assert sorted[..|sorted|] == sorted;
    var treeHash := TreeHash.TreeHash(shaVec, h);
    return Sent(uploads, treeHash);
  }

  /** The total length of the entries before position k. */
  lemma {:induction false} JoinedFullPrefix(es: seq<DirEntry>, k: nat)
    requires k <= |es|
    requires forall i :: 0 <= i < k ==> |es[i].contents| == ChunkSize
    ensures |Joined(es[..k])| == k * ChunkSize
  {
    if k > 0 {
      assert es[..k] == es[..k - 1] + [es[k - 1]];
      JoinedAppend(es[..k - 1], es[k - 1]);
      JoinedFullPrefix(es, k - 1);
    }
  }

  /** Joining distributes over concatenation of the lists. */
  lemma {:induction false} JoinedConcat(a: seq<DirEntry>, b: seq<DirEntry>)
    ensures Joined(a + b) == Joined(a) + Joined(b)
    decreases |b|
  {
    if b == [] {
      assert a + b == a;
    } else {
      var b', x := b[..|b| - 1], b[|b| - 1];
      assert a + b == (a + b') + [x];
      assert b == b' + [x];
      JoinedAppend(a + b', x);
      JoinedAppend(b', x);
      JoinedConcat(a, b');
    }
  }

  /** When every part but the last is a full chunk, the range sent for part k
      is exactly where that part's bytes lie in the archive: part k starts at
      offset k * CHUNK_SIZE and ends one byte before the next part starts, so
      the ranges cover the archive without gaps or overlaps. */
  lemma RangesTile(es: seq<DirEntry>, k: nat, h: Bytes -> TreeHash.Digest, accepted: bool)
    requires k < |es|
    requires forall i :: 0 <= i < |es| - 1 ==> |es[i].contents| == ChunkSize
    ensures UploadFor(k, es[k], h, accepted).rangeStart == |Joined(es[..k])|
    ensures UploadFor(k, es[k], h, accepted).rangeEnd + 1 == |Joined(es[..k + 1])|
    ensures k == |es| - 1 ==> UploadFor(k, es[k], h, accepted).rangeEnd + 1 == |Joined(es)|
    ensures Joined(es) == Joined(es[..k]) + es[k].contents + Joined(es[k + 1..])
    ensures Joined(es)[k * ChunkSize..k * ChunkSize + |es[k].contents|] == es[k].contents
  {
    JoinedFullPrefix(es, k);
    assert es[..k + 1] == es[..k] + [es[k]];
    JoinedAppend(es[..k], es[k]);
    assert es == es[..k + 1] + es[k + 1..];
    JoinedConcat(es[..k + 1], es[k + 1..]);
    if k == |es| - 1 {
      assert es[..k + 1] == es;
    }
  }

  /** Up to 100 part files (indices 0..99), sorting the directory listing by
      name puts the parts back in the order split_file wrote them, whatever
      order the directory yields them in. */
  lemma SortedPartsInIndexOrder(parts: seq<DirEntry>, dir: seq<DirEntry>)
    requires forall i :: 0 <= i < |parts| ==> parts[i].name == PartName(i)
    requires |parts| <= 100
    requires multiset(dir) == multiset(parts)
    ensures SortByName(dir) == parts
  {
    forall i, j | 0 <= i < j < |parts|
      ensures LexLess(parts[i].name, parts[j].name)
    {
      PartNamesOrderedBelow100(i, j);
    }
    SortedIsUnique(SortByName(dir), parts);
  }

  /** From 101 part files on, the name order is not the index order:
      "part_100.bin" sorts before "part_11.bin", so the parts are queued and
      sent out of order. */
  lemma SortedPartsOutOfOrderFrom101(parts: seq<DirEntry>, dir: seq<DirEntry>)
    requires forall i :: 0 <= i < |parts| ==> parts[i].name == PartName(i)
    requires |parts| > 100
    requires multiset(dir) == multiset(parts)
    ensures SortByName(dir) != parts
  {
    PartName100SortsBefore11();
    assert LexLess(parts[100].name, parts[11].name);
  }

  /** Consequently, for up to 100 parts the tree hash send_files returns is
      the tree hash of the digests of the file's consecutive chunks. */
  lemma UploadHashesChunksInFileOrder(parts: seq<DirEntry>, dir: seq<DirEntry>, h: Bytes -> TreeHash.Digest)
    requires forall i :: 0 <= i < |parts| ==> parts[i].name == PartName(i)
    requires 0 < |parts| <= 100
    requires multiset(dir) == multiset(parts)
    ensures LeafDigests(SortByName(dir), h) == LeafDigests(parts, h)
    ensures forall k :: 0 <= k < |parts| ==> LeafDigests(SortByName(dir), h)[k] == h(parts[k].contents)
  {
    SortedPartsInIndexOrder(parts, dir);
  }
}
