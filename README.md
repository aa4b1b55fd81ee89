# JSONLStream in Dafny

A model of JSONLStream, a Swift library for JSON Lines files. A JSON Lines
file holds one JSON value per line.

- `JSONLReader` reads such a file in 1024-byte chunks. It puts the chunks back
  together into newline-delimited records and emits them as a stream
  (`dataLines()`). It can also decode each record and skip the records that do
  not decode (`objects()`). `allData()` collects the record stream into an
  array. `allObjects()` is meant to do the same for the decoded stream, but
  `objects()` never finishes its stream, so `allObjects()` never returns (see
  "## Findings").
- `JSONLWriter` opens a file for appending, creating it if it is missing. It
  writes each data blob, or each encoded value, followed by a newline.

The model works on bytes:

- The file is a `Files.File` object. It says whether the file exists, whether
  it may be read and whether it may be written, and it holds the contents as a
  byte sequence.
- `JSONLFormat` defines what the splitter computes without its buffer loop:
  `Records(s)` is `s` split at every newline byte, with the empty pieces
  dropped. It also defines what the writer produces: `Serialize(ds)` is each
  line followed by a newline.
- `JSONLReader.SplitChunks` is the outer loop of the splitter in
  `dataLines()`: it appends each chunk to the buffer. It calls
  `JSONLReader.CarveLines`, which is the inner loop: it carves complete lines
  off the buffer. Together they keep the buffer and the two nested `while`
  loops of the original. The postcondition of `SplitChunks` says that its
  output equals `Records` of the bytes the reads delivered.
- `JSONLReader.Reader` and `JSONLWriter.Writer` are classes. Their methods
  follow the Swift methods: the writer's file position and the file's contents
  change in place.

Each asynchronous stream is modelled as a `JSONLReader.Stream`: the finite
sequence of elements that its producing loop emits, in order, and whether
the producer finishes the stream. `JSONLReader.Drain` is a `for await` loop
that collects a stream. It returns the elements once the stream has
finished, and `None` when the stream never finishes, because the loop then
waits forever after the last element.

The environment becomes parameters:

- `chunkSize` is the size of each read. The original always uses 1024
  (`JSONLReader.ReadChunkSize`, instantiated in
  `JSONLReader.Reader.LinesAtReadChunkSize`).
- `failAt` names the read that throws, if one does.
- `decode` and `encode` are the JSON codec.
- `WriteFault` says which of the two writes in `write(jsonData:)` throws, if
  either does.

Two behaviours of the reader worth knowing:

- A read error ends the read loop like end of file, because `dataLines()`
  reads with `try?`. The rest of the buffer is still emitted as the last
  record (`Sources/JSONLStream/JSONLReader.swift:88`, `:106-109`). So a read
  error keeps the records of the bytes read before it; an error on the first
  read gives an empty stream (`JSONLReader.Reader.LinesFirstReadFails`). A
  failure to open the file gives an empty stream whatever the file holds, and
  so do an empty file and a file of only newlines.
- Only `\n` delimits. A `\r` before it stays in its record
  (`JSONLFormat.CarriageReturnKept`).

Appending to an existing file whose last line has no newline joins the first
new line onto that last line, and the reader returns the two as one record
(`JSONLFormat.AppendToUnterminatedLine`). The writer does not guard against
this.

## Model

| member | source | states |
|---|---|---|
| JSONLFormat.JoinPieces | Sources/JSONLStream/JSONLReader.swift:93-95 | Splitting at every newline and putting the pieces back together with newlines gives the input back, so no byte is lost or reordered |
| JSONLFormat.PiecesJoin | Sources/JSONLStream/JSONLReader.swift:93-95 | Joining newline-free pieces with newlines and splitting again gives the pieces back, so splitting is exactly the inverse of joining |
| JSONLFormat.PiecesCount | Sources/JSONLStream/JSONLReader.swift:93-95 | There is one piece more than the input has newline bytes |
| JSONLFormat.PiecesAround | Sources/JSONLStream/JSONLReader.swift:93-95 | A newline byte separates the pieces before it from the pieces after it |
| JSONLFormat.DropEmptyMembers | Sources/JSONLStream/JSONLReader.swift:98 | A line is kept if and only if it is one of the pieces and is not empty |
| JSONLFormat.RecordsWellFormed | Sources/JSONLStream/JSONLReader.swift:93-109 | No record is empty and no record contains a newline byte |
| JSONLFormat.ByteConservation | Sources/JSONLStream/JSONLReader.swift:88-109 | The records hold every input byte except the newlines; an empty file has no records |
| JSONLFormat.TrailingNewline | Sources/JSONLStream/JSONLReader.swift:98 | A newline at the end of the input, whether a final newline or an empty line, adds no record |
| JSONLFormat.RecordsAfterNewline | Sources/JSONLStream/JSONLReader.swift:93-103 | Once a newline has been consumed, the records before it are fixed, whatever bytes follow |
| JSONLFormat.RecordsOfNewlineFree | Sources/JSONLStream/JSONLReader.swift:107-109 | A remainder without a newline is one record if it is non-empty and no record if it is empty |
| JSONLFormat.CarriageReturnKept | Sources/JSONLStream/JSONLReader.swift:83 | A carriage return before the newline stays in the record, because only `\n` delimits |
| JSONLFormat.RecordsOfAppendedLine | Sources/JSONLStream/JSONLWriter.swift:38-41 | One data line and its newline, written after a complete line, add that line as a record, or nothing if the line is empty |
| JSONLFormat.RecordsOfSerialized | Sources/JSONLStream/JSONLWriter.swift:38-41 | Reading back newline-free data lines written one per line gives exactly their non-empty members, in order |
| JSONLFormat.RecordsOfAppended | Sources/JSONLStream/JSONLWriter.swift:17-41 | Data lines appended after a complete last line add exactly their non-empty members after the existing records |
| JSONLFormat.RoundTrip | Sources/JSONLStream/JSONLWriter.swift:38-41 | Non-empty, newline-free data lines written one per line read back as the same sequence |
| JSONLFormat.AppendToUnterminatedLine | Sources/JSONLStream/JSONLWriter.swift:29-41 | A line appended to a file whose last line lacks its newline comes back merged with that last line, as one record |
| JSONLReader.Delivered | Sources/JSONLStream/JSONLReader.swift:88-90 | The read loop appends nothing exactly when the next read ends it: there are no more reads, the read throws, or the chunk is empty |
| JSONLReader.DeliveredPartition | Sources/JSONLStream/JSONLReader.swift:88-90 | However the input is cut into non-empty chunks, the read loop appends the same bytes to the buffer |
| JSONLReader.FileReads | Sources/JSONLStream/JSONLReader.swift:88 | `read(upToCount:)` on a regular file never returns more bytes than asked for |
| JSONLReader.FileReadsEnd | Sources/JSONLStream/JSONLReader.swift:88-89 | The reads of a regular file are non-empty chunks followed by one empty chunk at end of file, or by the read error |
| JSONLReader.FileReadsDeliver | Sources/JSONLStream/JSONLReader.swift:88-89 | Reading a file in chunks of any size delivers the whole file; a read error on read number n delivers exactly the chunks before it |
| JSONLReader.FirstNewline | Sources/JSONLStream/JSONLReader.swift:93 | `range(of: newline)`: there is a result exactly when the buffer holds a newline, and it is the position of the first one |
| JSONLReader.CarveLine | Sources/JSONLStream/JSONLReader.swift:94-102 | Carving the line before the first newline moves those bytes and the newline, in order, into the completed part, whose records gain the line if it is non-empty |
| JSONLReader.CarveLines | Sources/JSONLStream/JSONLReader.swift:93-103 | The inner loop leaves no newline in the buffer and keeps the emitted records equal to the records of everything before the buffer |
| JSONLReader.FlushRemainder | Sources/JSONLStream/JSONLReader.swift:106-109 | At the end, a newline-free remainder adds one last record if it is non-empty, and nothing if it is empty |
| JSONLReader.SplitChunks | Sources/JSONLStream/JSONLReader.swift:83-111 | The splitter emits exactly the delivered bytes split on newline with the empty pieces dropped, in order, so the result does not depend on where the chunks end |
| JSONLReader.DecodeAll | Sources/JSONLStream/JSONLReader.swift:51-63 | What `objects()` emits: at most one value per record, since records that fail to decode are skipped |
| JSONLReader.DecodeAllAppend | Sources/JSONLStream/JSONLReader.swift:51-63 | Decoding works record by record and keeps the order of the records |
| JSONLReader.DecodeAllLength | Sources/JSONLStream/JSONLReader.swift:51-63 | The number of values emitted is the number of records minus the number that fail to decode |
| JSONLReader.DecodeAllMembers | Sources/JSONLStream/JSONLReader.swift:53-63 | A value is emitted if and only if some record decodes to it |
| JSONLReader.DecodeAllTotal | Sources/JSONLStream/JSONLReader.swift:51-56 | When every record decodes, the values are the records' decodings, one for one and in order |
| JSONLReader.Reader.constructor | Sources/JSONLStream/JSONLReader.swift:16-17 | The instance that `init?` builds once its checks pass reads the given file |
| JSONLReader.Reader.Open | Sources/JSONLStream/JSONLReader.swift:16-28 | A reader exists if and only if the file exists and is readable |
| JSONLReader.Reader.Lines | Sources/JSONLStream/JSONLReader.swift:69-118 | The records of one stream are none if the file cannot be opened, otherwise those of the bytes read before end of file or the read error; none is empty and none holds a newline |
| JSONLReader.Reader.LinesWholeFile | Sources/JSONLStream/JSONLReader.swift:88 | Without a read error, the records are those of the whole file, for every chunk size |
| JSONLReader.Reader.LinesAtReadChunkSize | Sources/JSONLStream/JSONLReader.swift:88 | With the 1024-byte reads of `dataLines()` and no read error, the stream holds the records of the whole file |
| JSONLReader.Reader.LinesFirstReadFails | Sources/JSONLStream/JSONLReader.swift:88 | A read error on the first read ends the loop before any byte reaches the buffer, so the stream is empty |
| JSONLReader.Reader.DataLines | Sources/JSONLStream/JSONLReader.swift:69-118 | The stream always finishes. It is empty if the file cannot be opened; otherwise it holds the records of the bytes read before end of file or the first read error, the remainder included. Every record is non-empty and newline-free |
| JSONLReader.Reader.Objects | Sources/JSONLStream/JSONLReader.swift:46-67 | `objects()` as intended, finishing its stream after the loop as `dataLines()` does: the values are the decodings of the records that decode, in record order, and the stream finishes |
| JSONLReader.Reader.ObjectsAsWritten | Sources/JSONLStream/JSONLReader.swift:46-67 | `objects()` as written: the same values, in record order, but the producing task ends without `continuation.finish()`, so the stream is never finished |
| JSONLReader.DecodeRecords | Sources/JSONLStream/JSONLReader.swift:51-63 | The decoding loop of `objects()` emits exactly the decodings of the records that decode, in order |
| JSONLReader.Drain | Sources/JSONLStream/JSONLReader.swift:30-44 | Collecting a stream with `for await` returns all its elements in order once the stream has finished, and never returns when the stream is not finished |
| JSONLReader.Reader.AllData | Sources/JSONLStream/JSONLReader.swift:38-44 | Collects exactly the record stream, in order |
| JSONLReader.Reader.AllObjects | Sources/JSONLStream/JSONLReader.swift:30-36 | Collects exactly the decoded stream, in order |
| JSONLReader.Reader.AllObjectsAsWritten | Sources/JSONLStream/JSONLReader.swift:30-36 | Over `objects()` as written, `allObjects()` never returns, for every file, including an empty one and one that was removed or made unreadable after `init?` accepted it |
| JSONLWriter.Appended | Sources/JSONLStream/JSONLWriter.swift:38-45 | A write adds a prefix of the data followed by a newline: all of it when nothing fails, nothing when the data write fails |
| JSONLWriter.WriteAt | Sources/JSONLStream/JSONLWriter.swift:40-41 | A file handle write overwrites at the position and extends the file when it writes past the end; bytes outside the written range are unchanged |
| JSONLWriter.WriteAtEnd | Sources/JSONLStream/JSONLWriter.swift:30 | Writing at the end of the file, where the seek leaves the handle, appends |
| JSONLWriter.Writer.constructor | Sources/JSONLStream/JSONLWriter.swift:29 | A handle opened for writing starts at offset 0 |
| JSONLWriter.Writer.SeekToEndOfFile | Sources/JSONLStream/JSONLWriter.swift:30 | The write position moves to the end of the file |
| JSONLWriter.Writer.Open | Sources/JSONLStream/JSONLWriter.swift:17-35 | `appendIfExists` defaults to true. A missing file is created empty; an existing file is refused unless appending is allowed; the open fails if the file cannot be written; a writer that is returned is positioned at the end; an existing file's contents never change |
| JSONLWriter.Writer.WriteData | Sources/JSONLStream/JSONLWriter.swift:38-45 | The file grows by the data and a newline when nothing fails, by the data alone when the newline write fails, and not at all on a closed handle or a failed data write; the old contents stay a prefix and the position stays at the end |
| JSONLWriter.Writer.WriteObject | Sources/JSONLStream/JSONLWriter.swift:48-55 | When encoding fails the file is unchanged; otherwise the encoded data is written as by `write(jsonData:)` |
| JSONLWriter.Writer.Close | Sources/JSONLStream/JSONLWriter.swift:58-64 | The handle is closed, so later writes add nothing |
| JSONLWriter.EmptyWriteAddsNoRecord | Sources/JSONLStream/JSONLWriter.swift:38-41 | Writing empty data adds a bare newline, which the reader skips |
| JSONLWriter.Encoded | Sources/JSONLStream/JSONLWriter.swift:48-54 | One `write(jsonObject:)` call writes at most one data line: the encoding, or nothing when encoding fails |
| JSONLWriter.EncodeAll | Sources/JSONLStream/JSONLWriter.swift:48-54 | Successive `write(jsonObject:)` calls write at most one data line per value |
| JSONLWriter.EncodeAllSnoc | Sources/JSONLStream/JSONLWriter.swift:48-54 | One more value adds its encoding, if it has one, after the data lines of the earlier values |
| JSONLWriter.EncodeAllDecodes | Sources/JSONLStream/JSONLWriter.swift:48-51 | Values that the codec carries faithfully encode to non-empty, newline-free lines that decode back to the values, in order |
| JSONLWriter.ObjectRoundTrip | Sources/JSONLStream/JSONLWriter.swift:48-51 | Decoding the records of the serialized encodings of values that the codec carries faithfully gives the values back in order. `WriteObjectsThenRead` ties this to the writer and reader methods |
| JSONLWriter.WriteThenRead | Sources/JSONLStream/JSONLWriter.swift:17-41 | Writing data lines to a new file, closing it and reading it whole leaves exactly their serialization in the file and returns their non-empty members in order |
| JSONLWriter.WriteObjectsThenRead | Sources/JSONLStream/JSONLWriter.swift:17-55 | Writing values with `write(jsonObject:)` to a new file, closing it and reading it back whole with `allObjects()` (the finishing version) leaves their encodings one per line in the file and returns the values in order, when the codec carries each value faithfully |
| JSONLWriter.SerializeSnoc | Sources/JSONLStream/JSONLWriter.swift:38-41 | One more write appends that line and its newline to the serialization |

## Left out

- Asynchrony: `AsyncStream`, `Task`, `Task.yield()` and cancellation are not modelled. Each stream is modelled by the complete sequence of elements it emits and by whether it is finished. The model says nothing about interleaving or laziness.
- Logging through `OSLog` is left out. It has no effect on results.
- Closing the read handle (`defer { try fileHandle.close() }`) is left out. It has no effect on the emitted records.
- `JSONLReader.Reader.Open`: the existence and readability checks are the file's `present` and `readable` flags. The file system is not modelled beyond these flags and the contents.
- `JSONLReader.Reader.DataLines`: an open failure of `FileHandle(forReadingFrom:)` is modelled only through the `present` and `readable` flags as they stand when `dataLines()` runs. An open that fails while both flags hold, for example because too many files are open, is not modelled.
- `JSONLWriter.Writer.Open`: `createFile(atPath:contents:)` is modelled as always succeeding, since the original ignores its result. If creation did fail, the original's open would then throw, and the model does not show that case.
- `JSONLWriter.Writer.WriteData`: a write that throws after writing only part of its bytes is not modelled. A failed write adds nothing of its own bytes.
- JSON encoding and decoding are the `encode` and `decode` parameters. The model does not show that `JSONEncoder` output never contains a raw newline; `JSONLWriter.RoundTrips` makes it an assumption of the round-trip lemmas.
- `deinit` closing the writer is left out, because deallocation has no model here. `close()` is the explicit `Close` method.
- A read that returns fewer bytes than asked for before end of file is covered only by `DeliveredPartition`, which takes any partition into non-empty chunks. `FileReads` models a regular file, where only the last chunk is short.

## Findings

| source | as written | input that shows it | evidently intended | confidence | as-written member | corrected member |
|---|---|---|---|---|---|---|
| Sources/JSONLStream/JSONLReader.swift:46-67 | The task that produces `objects()` ends without calling `continuation.finish()`, so the stream never ends and `allObjects()` (:30-36) waits forever after the last value | Any file, including an empty one: `allObjects()` never returns. It does not return either when the file is removed or made unreadable after `init?` accepted it | Call `continuation.finish()` after the decoding loop, as `dataLines()` does at :111 and :114, so that `allObjects()` returns the decoded values | not executed | JSONLReader.Reader.AllObjectsAsWritten | JSONLReader.Reader.AllObjects |
