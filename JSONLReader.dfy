/**
 * The JSONL reader: a chunked line splitter over a byte source, a decoding
 * filter over its records, and the two draining variants. The asynchronous
 * stream of the original becomes the finite sequence the producing loop
 * would emit, in emission order.
 */
module JSONLReader {
  import opened Wrappers
  import opened Bytes
  import opened JSONLFormat
  import opened Files

  /** What one `read(upToCount:)` call gives: bytes (none at end of file), or an error that `try?` turns into nil. */
  datatype ReadResult = Chunk(data: seq<byte>) | ReadError

  /**
   * The bytes the read loop appends to its buffer from the reads numbered
   * `from` onwards: those of the chunks before the first error or empty
   * chunk. Reads past the end of `results` are at end of file.
   */
  function Delivered(results: seq<ReadResult>, from: nat): (bytes: seq<byte>)
    requires from <= |results|
    ensures bytes == [] <==> from == |results| || results[from] == ReadError || results[from] == Chunk([])
    decreases |results| - from
  {
    if from == |results| then []
    else match results[from]
      case ReadError => []
      case Chunk(d) => if d == [] then [] else d + Delivered(results, from + 1)
  }

  /** One more read in front shifts the numbering by one. */
  lemma {:induction false} DeliveredShift(first: ReadResult, results: seq<ReadResult>, from: nat)
    requires from <= |results|
    ensures Delivered([first] + results, from + 1) == Delivered(results, from)
    decreases |results| - from
  {
    assert ([first] + results)[from + 1..] == results[from..];
    if from < |results| {
      assert ([first] + results)[from + 1] == results[from];
      DeliveredShift(first, results, from + 1);
    }
  }

  /** Each of `chunks` as a successful read. */
  function AsReads(chunks: seq<seq<byte>>): (results: seq<ReadResult>)
    ensures |results| == |chunks|
    ensures forall k :: 0 <= k < |chunks| ==> results[k] == Chunk(chunks[k])
  {
    seq(|chunks|, k requires 0 <= k < |chunks| => Chunk(chunks[k]))
  }

  /** The chunks laid end to end. */
  function Flatten(chunks: seq<seq<byte>>): seq<byte>
  {
    if chunks == [] then [] else chunks[0] + Flatten(chunks[1..])
  }

  lemma {:induction false} DeliveredChunks(chunks: seq<seq<byte>>, from: nat)
    requires from <= |chunks|
    requires forall k :: 0 <= k < |chunks| ==> chunks[k] != []
    ensures Delivered(AsReads(chunks), from) == Flatten(chunks[from..])
    decreases |chunks| - from
  {
    if from < |chunks| {
      assert chunks[from..][0] == chunks[from] && chunks[from..][1..] == chunks[from + 1..];
      DeliveredChunks(chunks, from + 1);
    }
  }

  /** Whatever the partition of the input into non-empty chunks, the loop is given the same bytes. */
  lemma DeliveredPartition(chunks: seq<seq<byte>>)
    requires forall k :: 0 <= k < |chunks| ==> chunks[k] != []
    ensures Delivered(AsReads(chunks), 0) == Flatten(chunks)
  {
    DeliveredChunks(chunks, 0);
    assert chunks[0..] == chunks;
  }

  /**
   * What successive `read(upToCount: chunkSize)` calls on a regular file
   * holding `contents` return: full chunks, a short last chunk, then an
   * empty chunk; or, when `failAt` is `Some(n)`, an error on the read
   * numbered `n` (counting from 0) if the file has not ended before.
   */
  function FileReads(contents: seq<byte>, chunkSize: nat, failAt: Option<nat>): (results: seq<ReadResult>)
    requires chunkSize >= 1
    ensures forall k :: 0 <= k < |results| && results[k].Chunk? ==> |results[k].data| <= chunkSize
    decreases |contents|
  {
    if failAt == Some(0) then [ReadError]
    else if contents == [] then [Chunk([])]
    else
      var n := if |contents| < chunkSize then |contents| else chunkSize;
      var later := if failAt.Some? then Some(failAt.value - 1) else None;
      [Chunk(contents[..n])] + FileReads(contents[n..], chunkSize, later)
  }

  /** Non-empty chunks, then one empty chunk (end of file) or one read error. */
  predicate EndsProperly(results: seq<ReadResult>)
  {
    && |results| >= 1
    && (results[|results| - 1] == Chunk([]) || results[|results| - 1] == ReadError)
    && forall k :: 0 <= k < |results| - 1 ==> results[k].Chunk? && results[k].data != []
  }

  /** The reads of a regular file end properly. */
  lemma {:induction false} FileReadsEnd(contents: seq<byte>, chunkSize: nat, failAt: Option<nat>)
    requires chunkSize >= 1
    ensures EndsProperly(FileReads(contents, chunkSize, failAt))
    decreases |contents|
  {
    if failAt == Some(0) {
      assert FileReads(contents, chunkSize, failAt) == [ReadError];
    } else if contents == [] {
      assert FileReads(contents, chunkSize, failAt) == [Chunk([])];
    } else {
      var n := if |contents| < chunkSize then |contents| else chunkSize;
      var later := if failAt.Some? then Some(failAt.value - 1) else None;
      var rest := FileReads(contents[n..], chunkSize, later);
      assert FileReads(contents, chunkSize, failAt) == [Chunk(contents[..n])] + rest;
      assert contents[..n] != [] by {
        assert contents[..n][0] == contents[0];
      }
      FileReadsEnd(contents[n..], chunkSize, later);
      ChunkThen(contents[..n], rest);
    }
  }

  /** A non-empty chunk in front of reads that end properly gives reads that end properly. */
  lemma ChunkThen(chunk: seq<byte>, rest: seq<ReadResult>)
    requires chunk != [] && EndsProperly(rest)
    ensures EndsProperly([Chunk(chunk)] + rest)
  {
    var results := [Chunk(chunk)] + rest;
    assert results[|results| - 1] == rest[|rest| - 1];
    forall k | 0 <= k < |results| - 1
      ensures results[k].Chunk? && results[k].data != []
    {
      if k > 0 {
        assert results[k] == rest[k - 1];
      }
    }
  }

  /** How many bytes of a file of `size` bytes reach the buffer before end of file or the read error. */
  function DeliveredLength(size: nat, chunkSize: nat, failAt: Option<nat>): nat
  {
    match failAt
    case None => size
    case Some(n) => if n * chunkSize < size then n * chunkSize else size
  }

  /** The count of delivered bytes after one more chunk of `n` bytes has been read. */
  lemma DeliveredLengthStep(size: nat, chunkSize: nat, failAt: Option<nat>, n: nat)
    requires chunkSize >= 1 && 0 < size && failAt != Some(0)
    requires n == if size < chunkSize then size else chunkSize
    ensures var later := if failAt.Some? then Some(failAt.value - 1) else None;
            n + DeliveredLength(size - n, chunkSize, later) == DeliveredLength(size, chunkSize, failAt)
  {
    if failAt.Some? {
      var f := failAt.value;
      assert (f - 1) * chunkSize + chunkSize == f * chunkSize;
      assert f * chunkSize >= chunkSize;
    }
  }

  /** A file is read whole, whatever the chunk size; a read error stops it after the chunks before it. */
  lemma {:induction false} FileReadsDeliver(contents: seq<byte>, chunkSize: nat, failAt: Option<nat>)
    requires chunkSize >= 1
    ensures DeliveredLength(|contents|, chunkSize, failAt) <= |contents|
    ensures Delivered(FileReads(contents, chunkSize, failAt), 0)
            == contents[..DeliveredLength(|contents|, chunkSize, failAt)]
    decreases |contents|
  {
    if failAt == Some(0) {
      assert DeliveredLength(|contents|, chunkSize, failAt) == 0 by {
        assert 0 * chunkSize == 0;
      }
      assert FileReads(contents, chunkSize, failAt) == [ReadError];
    } else if contents == [] {
      assert FileReads(contents, chunkSize, failAt) == [Chunk([])];
    } else {
      var n := if |contents| < chunkSize then |contents| else chunkSize;
      var later := if failAt.Some? then Some(failAt.value - 1) else None;
      var rest := FileReads(contents[n..], chunkSize, later);
      assert FileReads(contents, chunkSize, failAt) == [Chunk(contents[..n])] + rest;
      FileReadsDeliver(contents[n..], chunkSize, later);
      var m := DeliveredLength(|contents| - n, chunkSize, later);
      DeliveredLengthStep(|contents|, chunkSize, failAt, n);
      DeliverChunk(contents, n, rest, m);
    }
  }

  /** One non-empty chunk of the file, then reads that deliver the next `m` bytes, deliver `n + m` bytes. */
  lemma DeliverChunk(contents: seq<byte>, n: nat, rest: seq<ReadResult>, m: nat)
    requires 1 <= n && n + m <= |contents|
    requires Delivered(rest, 0) == contents[n..][..m]
    ensures Delivered([Chunk(contents[..n])] + rest, 0) == contents[..n + m]
  {
    var all := [Chunk(contents[..n])] + rest;
    assert all[0] == Chunk(contents[..n]);
    assert Delivered(all, 0) == contents[..n] + Delivered(all, 1);
    DeliveredShift(Chunk(contents[..n]), rest, 0);
    assert contents[..n] + contents[n..][..m] == contents[..n + m];
  }

  /** The position of the first newline in `s`, as `range(of: newline)` finds it. */
  function FirstNewline(s: seq<byte>): (r: Option<nat>)
    ensures r.Some? ==> r.value < |s| && s[r.value] == Newline && Newline !in s[..r.value]
    ensures r.None? ==> Newline !in s
  {
    if s == [] then None
    else if s[0] == Newline then Some(0)
    else match FirstNewline(s[1..])
      case None => None
      case Some(i) =>
        assert s[..i + 1] == [s[0]] + s[1..][..i];
        Some(i + 1)
  }

  /**
   * Carving the line before the first newline out of the buffer: the carved
   * bytes, the newline included, join the completed part of the input, whose
   * records gain the line if it is non-empty.
   */
  lemma CarveLine(done: seq<byte>, buffer: seq<byte>, cut: nat)
    requires done == [] || done[|done| - 1] == Newline
    requires FirstNewline(buffer) == Some(cut)
    ensures var done' := done + buffer[..cut] + [Newline];
            && done' + buffer[cut + 1..] == done + buffer
            && done'[|done'| - 1] == Newline
            && Records(done') == Records(done) + (if buffer[..cut] == [] then [] else [buffer[..cut]])
  {
    var line, rest := buffer[..cut], buffer[cut + 1..];
    assert (done + line + [Newline]) + rest == done + buffer by {
      assert buffer == line + [Newline] + rest;
      assert forall k :: 0 <= k < |done + buffer| ==> (done + line + [Newline] + rest)[k] == (done + buffer)[k];
    }
    RecordsOfAppendedLine(done, line);
  }

  /** At the end, a newline-free remainder after the completed part is one more record if non-empty. */
  lemma FlushRemainder(done: seq<byte>, buffer: seq<byte>)
    requires done == [] || done[|done| - 1] == Newline
    requires Newline !in buffer
    ensures Records(done + buffer) == Records(done) + (if buffer == [] then [] else [buffer])
  {
    RecordsAfterNewline(done, buffer);
    RecordsOfNewlineFree(buffer);
  }

  /**
   * The inner loop of the splitter: while the buffer holds a newline, carve
   * off the line before it and emit it unless it is empty. The bytes of the
   * buffer move, in order, into the completed part of the input.
   */
  method CarveLines(buffer: seq<byte>, ghost done: seq<byte>, records: seq<seq<byte>>)
    returns (rest: seq<byte>, ghost done': seq<byte>, records': seq<seq<byte>>)
    requires done == [] || done[|done| - 1] == Newline
    requires records == Records(done)
    ensures done' + rest == done + buffer
    ensures done' == [] || done'[|done'| - 1] == Newline
    ensures records' == Records(done')
    ensures Newline !in rest
  {
    rest, done', records' := buffer, done, records;
    var next := FirstNewline(rest);
    while next.Some?
      invariant next == FirstNewline(rest)
      invariant done' + rest == done + buffer
      invariant done' == [] || done'[|done'| - 1] == Newline
      invariant records' == Records(done')
      decreases |rest|
    {
      var cut := next.value;
      var line := rest[..cut];
      CarveLine(done', rest, cut);
      done' := done' + line + [Newline];
      rest := rest[cut + 1..];
      if line != [] {
        records' := records' + [line];
      }
      next := FirstNewline(rest);
    }
  }

  /**
   * The splitter loop: append each chunk to the buffer, carve off every
   * complete line, emit the non-empty ones, and flush a non-empty remainder
   * at the end. Its output is the delivered bytes split on newline with the
   * empty pieces dropped, whatever the chunk boundaries.
   */
  method SplitChunks(results: seq<ReadResult>) returns (records: seq<seq<byte>>)
    ensures records == Records(Delivered(results, 0))
  {
    records := [];
    var buffer: seq<byte> := [];
    ghost var consumed: seq<byte> := [];  // all chunk bytes appended so far
    ghost var done: seq<byte> := [];      // the consumed bytes up to and including the last newline
    var i := 0;
    while i < |results| && results[i].Chunk? && results[i].data != []
      invariant 0 <= i <= |results|
      invariant Delivered(results, 0) == consumed + Delivered(results, i)
      invariant consumed == done + buffer
      invariant done == [] || done[|done| - 1] == Newline
      invariant records == Records(done)
      invariant Newline !in buffer
    {
      var chunk := results[i].data;
      assert (done + buffer) + chunk == done + (buffer + chunk);
      assert (consumed + chunk) + Delivered(results, i + 1) == consumed + (chunk + Delivered(results, i + 1));
      consumed := consumed + chunk;
      buffer, done, records := CarveLines(buffer + chunk, done, records);
      i := i + 1;
    }
    assert Delivered(results, 0) == done + buffer;
    FlushRemainder(done, buffer);
    if buffer != [] {
      records := records + [buffer];
    }
  }

  /** What `objects()` emits for `records`: the decoded values of the records that decode, in order. */
  function DecodeAll<T>(records: seq<seq<byte>>, decode: seq<byte> -> Option<T>): (objs: seq<T>)
    ensures |objs| <= |records|
  {
    if records == [] then []
    else (match decode(records[0]) case Some(v) => [v] case None => []) + DecodeAll(records[1..], decode)
  }

  /** The number of records that fail to decode. */
  function DecodeFailures<T>(records: seq<seq<byte>>, decode: seq<byte> -> Option<T>): nat
  {
    if records == [] then 0
    else (if decode(records[0]).None? then 1 else 0) + DecodeFailures(records[1..], decode)
  }

  /** Decoding is applied record by record, keeping order. */
  lemma {:induction false} DecodeAllAppend<T>(a: seq<seq<byte>>, b: seq<seq<byte>>, decode: seq<byte> -> Option<T>)
    ensures DecodeAll(a + b, decode) == DecodeAll(a, decode) + DecodeAll(b, decode)
  {
    if a == [] {
      assert a + b == b;
    } else {
      assert (a + b)[0] == a[0] && (a + b)[1..] == a[1..] + b;
      DecodeAllAppend(a[1..], b, decode);
    }
  }

  /** One value per record that decodes: the records minus the failures. */
  lemma {:induction false} DecodeAllLength<T>(records: seq<seq<byte>>, decode: seq<byte> -> Option<T>)
    ensures |DecodeAll(records, decode)| == |records| - DecodeFailures(records, decode)
    ensures DecodeFailures(records, decode) <= |records|
  {
    if records != [] {
      DecodeAllLength(records[1..], decode);
    }
  }

  /** A value is emitted exactly when some record decodes to it. */
  lemma {:induction false} DecodeAllMembers<T>(records: seq<seq<byte>>, decode: seq<byte> -> Option<T>, v: T)
    ensures v in DecodeAll(records, decode) <==> exists k :: 0 <= k < |records| && decode(records[k]) == Some(v)
  {
    if records != [] {
      DecodeAllMembers(records[1..], decode, v);
      if exists k :: 0 <= k < |records| && decode(records[k]) == Some(v) {
        var k :| 0 <= k < |records| && decode(records[k]) == Some(v);
        if k > 0 {
          assert records[1..][k - 1] == records[k];
        }
      }
      if exists k :: 0 <= k < |records[1..]| && decode(records[1..][k]) == Some(v) {
        var k :| 0 <= k < |records[1..]| && decode(records[1..][k]) == Some(v);
        assert records[k + 1] == records[1..][k];
      }
    }
  }

  /** When every record decodes, the values are the records' decodings one for one. */
  lemma {:induction false} DecodeAllTotal<T>(records: seq<seq<byte>>, decode: seq<byte> -> Option<T>)
    requires forall k :: 0 <= k < |records| ==> decode(records[k]).Some?
    ensures |DecodeAll(records, decode)| == |records|
    ensures forall k :: 0 <= k < |records| ==> DecodeAll(records, decode)[k] == decode(records[k]).value
  {
    if records != [] {
      assert forall k :: 0 <= k < |records[1..]| ==> records[1..][k] == records[k + 1];
      DecodeAllTotal(records[1..], decode);
    }
  }

  /**
   * What an `AsyncStream` delivers to a `for await` loop: its elements in
   * order, and whether the producer finished it. A loop over a stream that
   * is never finished suspends for good after the last element.
   */
  datatype Stream<T> = Stream(items: seq<T>, finished: bool)

  /**
   * A `for await` loop that appends every element to an array: the array
   * once the stream has finished, `None` when the loop never gets past the
   * last element.
   */
  method Drain<T>(stream: Stream<T>) returns (collected: Option<seq<T>>)
    ensures stream.finished ==> collected == Some(stream.items)
    ensures !stream.finished ==> collected.None?
  {
    var output: seq<T> := [];
    var i := 0;
    while i < |stream.items|
      invariant 0 <= i <= |stream.items|
      invariant output == stream.items[..i]
    {
      output := output + [stream.items[i]];
      i := i + 1;
    }
    assert stream.items[..i] == stream.items;
    if stream.finished {
      collected := Some(output);
    } else {
      // no further element and no end: the loop awaits forever
      collected := None;
    }
  }

  /** The decoding loop of `objects()`: try each record, emit what decodes, skip the rest. */
  method DecodeRecords<T>(records: seq<seq<byte>>, decode: seq<byte> -> Option<T>) returns (objs: seq<T>)
    ensures objs == DecodeAll(records, decode)
  {
    objs := [];
    var i := 0;
    while i < |records|
      invariant 0 <= i <= |records|
      invariant objs == DecodeAll(records[..i], decode)
    {
      assert records[..i + 1] == records[..i] + [records[i]];
      DecodeAllAppend(records[..i], [records[i]], decode);
      match decode(records[i]) {
        case Some(v) => objs := objs + [v];
        case None =>
      }
      i := i + 1;
    }
    assert records[..i] == records;
  }

  /** The chunk size `dataLines()` reads with; the model takes any chunk size from 1 up. */
  const ReadChunkSize: nat := 1024

  /** A reader on one file. The file is opened again by every stream it produces. */
  class Reader {
    const file: File

    /** The instance `init?` builds once its checks have passed. */
    constructor (file: File)
      requires file.present && file.readable
      ensures this.file == file
    {
      this.file := file;
    }

    /** `init?(fileURL:)`: no reader for a file that does not exist or cannot be read. */
    static method Open(file: File) returns (r: Reader?)
      ensures r != null <==> file.present && file.readable
      ensures r != null ==> fresh(r) && r.file == file
    {
      if !file.present {
        return null;
      }
      if !file.readable {
        return null;
      }
      r := new Reader(file);
    }

    /**
     * The records one stream of this reader emits: none if the file cannot be
     * opened, otherwise the bytes read before end of file or a read error,
     * split on newline with empty pieces dropped.
     */
    function Lines(chunkSize: nat, failAt: Option<nat>): (lines: seq<seq<byte>>)
      requires chunkSize >= 1
      reads file
      ensures forall r :: r in lines ==> r != [] && Newline !in r
    {
      if file.present && file.readable then
        var read := file.contents[..DeliveredLength(|file.contents|, chunkSize, failAt)];
        RecordsWellFormed(read);
        Records(read)
      else []
    }

    /** Without a read error, the records are those of the whole file for every chunk size. */
    lemma LinesWholeFile(chunkSize: nat)
      requires chunkSize >= 1
      requires file.present && file.readable
      ensures Lines(chunkSize, None) == Records(file.contents)
    {
      assert file.contents[..|file.contents|] == file.contents;
    }

    /** With the chunk size `dataLines()` uses, and no read error, the stream holds the records of the whole file. */
    lemma LinesAtReadChunkSize()
      requires file.present && file.readable
      ensures Lines(ReadChunkSize, None) == Records(file.contents)
    {
      LinesWholeFile(ReadChunkSize);
    }

    /** A read error on the first read leaves nothing to split: the stream is empty, whatever the file holds. */
    lemma LinesFirstReadFails(chunkSize: nat)
      requires chunkSize >= 1
      ensures Lines(chunkSize, Some(0)) == []
    {
      assert 0 * chunkSize == 0;
      if file.present && file.readable {
        assert file.contents[..0] == [];
        assert Pieces([]) == [[]];
      }
    }

    /**
     * `dataLines()`: open the file, run the splitter over its chunks of
     * `chunkSize` bytes (`ReadChunkSize` in the original), and finish the
     * stream, which it does on every path.
     */
    method DataLines(chunkSize: nat, failAt: Option<nat>) returns (stream: Stream<seq<byte>>)
      requires chunkSize >= 1
      ensures stream.finished && stream.items == Lines(chunkSize, failAt)
      ensures forall r :: r in stream.items ==> r != [] && Newline !in r
    {
      if !(file.present && file.readable) {
        // FileHandle(forReadingFrom:) throws: the stream finishes empty
        return Stream([], true);
      }
      var results := FileReads(file.contents, chunkSize, failAt);
      FileReadsDeliver(file.contents, chunkSize, failAt);
      var records := SplitChunks(results);
      stream := Stream(records, true);
    }

    /**
     * `objects()` as it is meant to work: decode each record of `dataLines()`,
     * emitting the values that decode and skipping the rest, then finish.
     */
    method Objects<T>(chunkSize: nat, failAt: Option<nat>, decode: seq<byte> -> Option<T>) returns (stream: Stream<T>)
      requires chunkSize >= 1
      ensures stream.finished && stream.items == DecodeAll(Lines(chunkSize, failAt), decode)
    {
      var lines := DataLines(chunkSize, failAt);
      var objs := DecodeRecords(lines.items, decode);
      stream := Stream(objs, true);
    }

    /**
     * `objects()` as written: the same values, but the producing task ends
     * without finishing the stream, so it never reports its end.
     */
    method ObjectsAsWritten<T>(chunkSize: nat, failAt: Option<nat>, decode: seq<byte> -> Option<T>) returns (stream: Stream<T>)
      requires chunkSize >= 1
      ensures !stream.finished && stream.items == DecodeAll(Lines(chunkSize, failAt), decode)
    {
      var lines := DataLines(chunkSize, failAt);
      var objs := DecodeRecords(lines.items, decode);
      stream := Stream(objs, false);
    }

    /** `allData()`: the whole record stream collected in order. */
    method AllData(chunkSize: nat, failAt: Option<nat>) returns (output: seq<seq<byte>>)
      requires chunkSize >= 1
      ensures output == Lines(chunkSize, failAt)
    {
      var lines := DataLines(chunkSize, failAt);
      var collected := Drain(lines);
      output := collected.value;
    }

    /** `allObjects()` over the finishing `objects()`: the whole decoded stream collected in order. */
    method AllObjects<T>(chunkSize: nat, failAt: Option<nat>, decode: seq<byte> -> Option<T>) returns (output: seq<T>)
      requires chunkSize >= 1
      ensures output == DecodeAll(Lines(chunkSize, failAt), decode)
    {
      var objs := Objects(chunkSize, failAt, decode);
      var collected := Drain(objs);
      output := collected.value;
    }

    /** `allObjects()` as written: its `for await` loop waits for an end that never comes, for every file. */
    method AllObjectsAsWritten<T>(chunkSize: nat, failAt: Option<nat>, decode: seq<byte> -> Option<T>) returns (output: Option<seq<T>>)
      requires chunkSize >= 1
      ensures output.None?
    {
      var objs := ObjectsAsWritten(chunkSize, failAt, decode);
      output := Drain(objs);
    }
  }
}
