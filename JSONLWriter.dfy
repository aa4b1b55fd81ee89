/**
 * The JSONL writer: opens (or creates) a file, moves its write position to
 * the end, and appends one newline-terminated data line per write. I/O
 * failures are parameters of the calls; like the original, the writer
 * swallows them, so their only trace is in the file contents.
 */
module JSONLWriter {
  import opened Wrappers
  import opened Bytes
  import opened JSONLFormat
  import opened Files
  import JSONLReader

  /** Which of the two writes of `write(jsonData:)` throws, if either does. */
  datatype WriteFault = NoFault | DataWriteFails | NewlineWriteFails

  /**
   * The bytes one `write(jsonData:)` call adds at the end of the file: the
   * data and a newline, or, when a write throws, what was written before it.
   */
  function Appended(data: seq<byte>, fault: WriteFault): (added: seq<byte>)
    ensures added <= data + [Newline]
    ensures fault == NoFault ==> added == Serialize([data])
    ensures fault == DataWriteFails ==> added == []
  {
    match fault
    case NoFault => data + [Newline]
    case DataWriteFails => []
    case NewlineWriteFails => data
  }

  /** The file contents after writing `d` at offset `pos`: a file handle overwrites, extending the file if needed. */
  function WriteAt(c: seq<byte>, pos: nat, d: seq<byte>): (r: seq<byte>)
    requires pos <= |c|
    ensures |r| == if pos + |d| <= |c| then |c| else pos + |d|
    ensures r[..pos] == c[..pos] && r[pos..pos + |d|] == d
    ensures pos + |d| <= |c| ==> r[pos + |d|..] == c[pos + |d|..]
  {
    c[..pos] + d + (if pos + |d| <= |c| then c[pos + |d|..] else [])
  }

  /** Writing at the end of the file appends. */
  lemma WriteAtEnd(c: seq<byte>, d: seq<byte>)
    ensures WriteAt(c, |c|, d) == c + d
  {
    assert c[..|c|] == c;
  }

  class Writer {
    const file: File
    var position: nat
    var isOpen: bool

    /** The write position is at the end of the file, so every write appends. */
    ghost predicate Valid()
      reads this, file
    {
      file.present && position == |file.contents|
    }

    /** `FileHandle(forWritingTo:)` on a file that exists and may be written: the handle starts at offset 0. */
    constructor (file: File)
      requires file.present && file.writable
      ensures this.file == file && position == 0 && isOpen
    {
      this.file := file;
      position := 0;
      isOpen := true;
    }

    /** `seekToEndOfFile()`. */
    method SeekToEndOfFile()
      modifies this`position
      ensures position == |file.contents|
    {
      position := |file.contents|;
    }

    /**
     * `init?(fileURL:appendIfExists:)`: create a missing file empty; refuse an
     * existing one unless appending is allowed; open for writing and move to
     * the end. An existing file's contents are never changed.
     */
    static method Open(file: File, appendIfExists: bool := true) returns (w: Writer?)
      modifies file`present, file`contents
      ensures old(file.present) ==> file.present && file.contents == old(file.contents)
      ensures !old(file.present) ==> file.present && file.contents == []
      ensures old(file.present) && !appendIfExists ==> w == null
      ensures w != null <==> (!old(file.present) || appendIfExists) && file.writable
      ensures w != null ==> fresh(w) && w.file == file && w.Valid() && w.isOpen
    {
      if !file.present {
        // createFile(atPath:contents: nil)
        file.present := true;
        file.contents := [];
      } else if !appendIfExists {
        return null;
      }
      if !file.writable {
        // FileHandle(forWritingTo:) throws
        return null;
      }
      w := new Writer(file);
      w.SeekToEndOfFile();
    }

    /**
     * `write(jsonData:)`: write the data, then a newline, at the write
     * position. A throwing write ends the call; on a closed handle the first
     * write throws. The old contents stay a prefix of the new ones.
     */
    method WriteData(data: seq<byte>, fault: WriteFault)
      requires Valid()
      modifies this`position, file`contents
      ensures Valid()
      ensures file.contents == old(file.contents) + Appended(data, if isOpen then fault else DataWriteFails)
      ensures old(file.contents) <= file.contents
    {
      if !isOpen || fault == DataWriteFails {
        return;
      }
      WriteAtEnd(file.contents, data);
      file.contents := WriteAt(file.contents, position, data);
      position := position + |data|;
      if fault == NewlineWriteFails {
        return;
      }
      WriteAtEnd(file.contents, [Newline]);
      file.contents := WriteAt(file.contents, position, [Newline]);
      position := position + 1;
    }

    /** `write(jsonObject:)`: encode, dropping the value if encoding fails, and write the data. */
    method WriteObject<T>(value: T, encode: T -> Option<seq<byte>>, fault: WriteFault)
      requires Valid()
      modifies this`position, file`contents
      ensures Valid()
      ensures encode(value).None? ==> file.contents == old(file.contents)
      ensures encode(value).Some? ==>
                file.contents == old(file.contents) + Appended(encode(value).value, if isOpen then fault else DataWriteFails)
    {
      match encode(value) {
        case None =>
        case Some(data) => WriteData(data, fault);
      }
    }

    /** `close()`: later writes throw, and so does a second close; either way nothing else changes. */
    method Close()
      modifies this`isOpen
      ensures !isOpen
    {
      isOpen := false;
    }
  }

  /** An empty data line written after a complete line is skipped by the reader. */
  lemma EmptyWriteAddsNoRecord(c: seq<byte>)
    ensures Records(c + Appended([], NoFault)) == Records(c)
  {
    assert c + Appended([], NoFault) == c + [Newline];
    TrailingNewline(c);
  }

  /** A value the codec carries faithfully: it encodes to a non-empty newline-free line that decodes back to it. */
  ghost predicate RoundTrips<T(!new)>(encode: T -> Option<seq<byte>>, decode: seq<byte> -> Option<T>, x: T)
  {
    match encode(x)
    case None => false
    case Some(d) => d != [] && Newline !in d && decode(d) == Some(x)
  }

  /** The data lines `write(jsonObject:)` writes for `xs`: the encodings that succeed, in order. */
  function EncodeAll<T>(xs: seq<T>, encode: T -> Option<seq<byte>>): (lines: seq<seq<byte>>)
    ensures |lines| <= |xs|
  {
    if xs == [] then [] else Encoded(xs[0], encode) + EncodeAll(xs[1..], encode)
  }

  /** The data line `write(jsonObject:)` writes for `x`: its encoding, or nothing when encoding fails. */
  function Encoded<T>(x: T, encode: T -> Option<seq<byte>>): (lines: seq<seq<byte>>)
    ensures |lines| <= 1
  {
    match encode(x)
    case Some(d) => [d]
    case None => []
  }

  lemma {:induction false} EncodeAllDecodes<T(!new)>(xs: seq<T>, encode: T -> Option<seq<byte>>, decode: seq<byte> -> Option<T>)
    requires forall k :: 0 <= k < |xs| ==> RoundTrips(encode, decode, xs[k])
    ensures forall d :: d in EncodeAll(xs, encode) ==> d != [] && Newline !in d
    ensures JSONLReader.DecodeAll(EncodeAll(xs, encode), decode) == xs
  {
    if xs != [] {
      assert RoundTrips(encode, decode, xs[0]);
      assert forall k :: 0 <= k < |xs[1..]| ==> xs[1..][k] == xs[k + 1];
      EncodeAllDecodes(xs[1..], encode, decode);
      var d := encode(xs[0]).value;
      assert EncodeAll(xs, encode) == [d] + EncodeAll(xs[1..], encode);
      assert xs == [xs[0]] + xs[1..];
    }
  }

  /**
   * Values written one per line to a fresh file and read back through the
   * decoding reader come back in order, provided the codec carries each
   * of them faithfully.
   */
  lemma ObjectRoundTrip<T(!new)>(xs: seq<T>, encode: T -> Option<seq<byte>>, decode: seq<byte> -> Option<T>)
    requires forall k :: 0 <= k < |xs| ==> RoundTrips(encode, decode, xs[k])
    ensures JSONLReader.DecodeAll(Records(Serialize(EncodeAll(xs, encode))), decode) == xs
  {
    EncodeAllDecodes(xs, encode, decode);
    RoundTrip(EncodeAll(xs, encode));
  }

  /**
   * Write the data lines `ds` to a fresh file without faults, close it, and
   * read it back whole: the reader returns the non-empty lines, in order.
   */
  method WriteThenRead(file: File, ds: seq<seq<byte>>, chunkSize: nat) returns (records: seq<seq<byte>>)
    requires !file.present && file.readable && file.writable
    requires chunkSize >= 1
    requires forall d :: d in ds ==> Newline !in d
    modifies file
    ensures file.contents == Serialize(ds)
    ensures records == DropEmpty(ds)
  {
    var w := Writer.Open(file, false);
    var i := 0;
    while i < |ds|
      invariant 0 <= i <= |ds|
      invariant w.file == file && w.Valid() && w.isOpen
      invariant file.present && file.readable
      invariant file.contents == Serialize(ds[..i])
    {
      SerializeSnoc(ds[..i], ds[i]);
      assert ds[..i + 1] == ds[..i] + [ds[i]];
      w.WriteData(ds[i], NoFault);
      i := i + 1;
    }
    assert ds[..i] == ds;
    w.Close();
    var reader := JSONLReader.Reader.Open(file);
    records := reader.AllData(chunkSize, None);
    reader.LinesWholeFile(chunkSize);
    RecordsOfSerialized(ds);
  }

  /** One more value adds its encoding, if it has one, at the end. */
  lemma {:induction false} EncodeAllSnoc<T>(xs: seq<T>, x: T, encode: T -> Option<seq<byte>>)
    ensures EncodeAll(xs + [x], encode) == EncodeAll(xs, encode) + Encoded(x, encode)
  {
    if xs == [] {
      assert [x][1..] == [];
      assert xs + [x] == [x];
    } else {
      assert (xs + [x])[0] == xs[0] && (xs + [x])[1..] == xs[1..] + [x];
      EncodeAllSnoc(xs[1..], x, encode);
      var head, tail := Encoded(xs[0], encode), EncodeAll(xs[1..], encode);
      assert head + (tail + Encoded(x, encode)) == (head + tail) + Encoded(x, encode);
    }
  }

  /**
   * Encode and write each of `xs` with `write(jsonObject:)` to a fresh file
   * without faults, close it, and read it back whole with `allObjects()`:
   * the file holds the encodings one per line, and the values come back in
   * order, provided the codec carries each of them faithfully.
   */
  method WriteObjectsThenRead<T(!new)>(file: File, xs: seq<T>, encode: T -> Option<seq<byte>>,
                                       decode: seq<byte> -> Option<T>, chunkSize: nat)
    returns (values: seq<T>)
    requires !file.present && file.readable && file.writable
    requires chunkSize >= 1
    requires forall k :: 0 <= k < |xs| ==> RoundTrips(encode, decode, xs[k])
    modifies file
    ensures file.contents == Serialize(EncodeAll(xs, encode))
    ensures values == xs
  {
    var w := Writer.Open(file, false);
    var i := 0;
    while i < |xs|
      invariant 0 <= i <= |xs|
      invariant w.file == file && w.Valid() && w.isOpen
      invariant file.present && file.readable
      invariant file.contents == Serialize(EncodeAll(xs[..i], encode))
    {
      assert xs[..i + 1] == xs[..i] + [xs[i]];
      EncodeAllSnoc(xs[..i], xs[i], encode);
      match encode(xs[i]) {
        case Some(d) => SerializeSnoc(EncodeAll(xs[..i], encode), d);
        case None =>
      }
      w.WriteObject(xs[i], encode, NoFault);
      i := i + 1;
    }
    assert xs[..i] == xs;
    w.Close();
    var reader := JSONLReader.Reader.Open(file);
    values := reader.AllObjects(chunkSize, None, decode);
    reader.LinesWholeFile(chunkSize);
    ObjectRoundTrip(xs, encode, decode);
  }

  lemma {:induction false} SerializeSnoc(ds: seq<seq<byte>>, d: seq<byte>)
    ensures Serialize(ds + [d]) == Serialize(ds) + d + [Newline]
  {
    if ds == [] {
      assert ds + [d] == [d];
    } else {
      assert (ds + [d])[0] == ds[0] && (ds + [d])[1..] == ds[1..] + [d];
      SerializeSnoc(ds[1..], d);
    }
  }
}
