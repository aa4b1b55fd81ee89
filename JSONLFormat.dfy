/**
 * What the line splitter of the JSONL reader computes, defined independently
 * of its buffer loop: the input split on every newline byte (and only on the
 * newline byte), with the empty pieces dropped, in file order. The writer's
 * output format is defined here too, so that the two can be related.
 */
module JSONLFormat {
  import opened Bytes

  /** `s` split at every newline byte, keeping empty pieces: "a\n\nb" gives ["a", "", "b"]. */
  function Pieces(s: seq<byte>): (ps: seq<seq<byte>>)
    ensures |ps| >= 1
  {
    if s == [] then [[]]
    else
      var rest := Pieces(s[1..]);
      if s[0] == Newline then [[]] + rest
      else [[s[0]] + rest[0]] + rest[1..]
  }

  /** The pieces put back together with one newline between neighbours. */
  function Join(ps: seq<seq<byte>>): seq<byte>
    requires |ps| >= 1
  {
    if |ps| == 1 then ps[0] else ps[0] + [Newline] + Join(ps[1..])
  }

  /** The non-empty members of `ps`, in order. */
  function DropEmpty(ps: seq<seq<byte>>): seq<seq<byte>>
  {
    if ps == [] then []
    else (if ps[0] == [] then [] else [ps[0]]) + DropEmpty(ps[1..])
  }

  /** The records the reader emits for the byte stream `s`. */
  function Records(s: seq<byte>): seq<seq<byte>>
  {
    DropEmpty(Pieces(s))
  }

  /** What the writer puts in the file for the data lines `ds`: each one followed by a newline. */
  function Serialize(ds: seq<seq<byte>>): seq<byte>
  {
    if ds == [] then [] else ds[0] + [Newline] + Serialize(ds[1..])
  }

  // ---------------------------------------------------------------------------
  // Pieces is exactly "split on newline": it inverts Join.

  lemma {:induction false} JoinPieces(s: seq<byte>)
    ensures Join(Pieces(s)) == s
  {
    if s != [] {
      var rest := Pieces(s[1..]);
      JoinPieces(s[1..]);
      if s[0] == Newline {
        assert Pieces(s)[1..] == rest;
      } else if |rest| == 1 {
        assert Pieces(s) == [[s[0]] + rest[0]];
      } else {
        var ps := Pieces(s);
        assert ps[0] == [s[0]] + rest[0] && ps[1..] == rest[1..];
        assert Join(rest) == rest[0] + [Newline] + Join(rest[1..]);
      }
    }
  }

  /** There is one piece more than there are newlines. */
  lemma {:induction false} PiecesCount(s: seq<byte>)
    ensures |Pieces(s)| == CountNewlines(s) + 1
  {
    if s != [] {
      PiecesCount(s[1..]);
    }
  }

  lemma {:induction false} PiecesOfNewlineFree(s: seq<byte>)
    requires Newline !in s
    ensures Pieces(s) == [s]
  {
    if s != [] {
      assert Newline !in s[1..];
      PiecesOfNewlineFree(s[1..]);
      assert [s[0]] + s[1..] == s;
    }
  }

  /** A newline byte separates the pieces of what comes before it from those of what follows. */
  lemma {:induction false} PiecesAround(a: seq<byte>, b: seq<byte>)
    ensures Pieces(a + [Newline] + b) == Pieces(a) + Pieces(b)
  {
    var s := a + [Newline] + b;
    if a == [] {
      assert s[1..] == b;
    } else {
      assert s[0] == a[0] && s[1..] == a[1..] + [Newline] + b;
      PiecesAround(a[1..], b);
    }
  }

  lemma {:induction false} PiecesJoin(ps: seq<seq<byte>>)
    requires |ps| >= 1
    requires forall p :: p in ps ==> Newline !in p
    ensures Pieces(Join(ps)) == ps
  {
    assert ps[0] in ps;
    PiecesOfNewlineFree(ps[0]);
    if |ps| > 1 {
      assert forall p :: p in ps[1..] ==> p in ps;
      PiecesJoin(ps[1..]);
      PiecesAround(ps[0], Join(ps[1..]));
      assert ps == [ps[0]] + ps[1..];
    }
  }

  // ---------------------------------------------------------------------------
  // How Records composes.

  lemma {:induction false} DropEmptyAppend(a: seq<seq<byte>>, b: seq<seq<byte>>)
    ensures DropEmpty(a + b) == DropEmpty(a) + DropEmpty(b)
  {
    if a != [] {
      assert (a + b)[0] == a[0] && (a + b)[1..] == a[1..] + b;
      DropEmptyAppend(a[1..], b);
    } else {
      assert a + b == b;
    }
  }

  lemma {:induction false} DropEmptyKeepsNonEmpty(ps: seq<seq<byte>>)
    requires forall p :: p in ps ==> p != []
    ensures DropEmpty(ps) == ps
  {
    if ps != [] {
      assert ps[0] in ps;
      assert forall p :: p in ps[1..] ==> p in ps;
      DropEmptyKeepsNonEmpty(ps[1..]);
      assert ps == [ps[0]] + ps[1..];
    }
  }

  /** The records of a newline-free stretch: nothing if it is empty, otherwise the stretch itself. */
  lemma RecordsOfNewlineFree(s: seq<byte>)
    requires Newline !in s
    ensures Records(s) == if s == [] then [] else [s]
  {
    PiecesOfNewlineFree(s);
    assert DropEmpty([s]) == (if s == [] then [] else [s]) + DropEmpty([]);
  }

  /** A newline at the end of the input (a trailing newline, or an empty line) adds no record. */
  lemma TrailingNewline(s: seq<byte>)
    ensures Records(s + [Newline]) == Records(s)
  {
    PiecesAround(s, []);
    assert s + [Newline] + [] == s + [Newline];
    DropEmptyAppend(Pieces(s), [[]]);
  }

  /** Once a newline has been seen, the records before it are fixed whatever follows. */
  lemma RecordsAfterNewline(a: seq<byte>, b: seq<byte>)
    requires a == [] || a[|a| - 1] == Newline
    ensures Records(a + b) == Records(a) + Records(b)
  {
    if a == [] {
      assert a + b == b;
    } else {
      var a' := a[..|a| - 1];
      assert a == a' + [Newline] && a + b == a' + [Newline] + b;
      PiecesAround(a', b);
      DropEmptyAppend(Pieces(a'), Pieces(b));
      TrailingNewline(a');
    }
  }

  // ---------------------------------------------------------------------------
  // Properties of the records.

  lemma {:induction false} PiecesNewlineFree(s: seq<byte>)
    ensures forall p :: p in Pieces(s) ==> Newline !in p
  {
    if s != [] {
      var rest := Pieces(s[1..]);
      PiecesNewlineFree(s[1..]);
      if s[0] != Newline {
        assert rest[0] in rest;
        assert forall p :: p in rest[1..] ==> p in rest;
      }
    }
  }

  /** DropEmpty keeps exactly the non-empty members. */
  lemma {:induction false} DropEmptyMembers(ps: seq<seq<byte>>)
    ensures forall r :: r in DropEmpty(ps) <==> r in ps && r != []
  {
    if ps != [] {
      DropEmptyMembers(ps[1..]);
      assert ps == [ps[0]] + ps[1..];
    }
  }

  /** No record is empty and no record contains a newline. */
  lemma RecordsWellFormed(s: seq<byte>)
    ensures forall r :: r in Records(s) ==> r != [] && Newline !in r
  {
    PiecesNewlineFree(s);
    DropEmptyMembers(Pieces(s));
  }

  lemma {:induction false} PiecesLength(s: seq<byte>)
    ensures TotalLength(Pieces(s)) == |s| - CountNewlines(s)
  {
    if s != [] {
      var rest := Pieces(s[1..]);
      PiecesLength(s[1..]);
      if s[0] != Newline {
        var ps := Pieces(s);
        assert ps[0] == [s[0]] + rest[0] && ps[1..] == rest[1..];
      } else {
        assert Pieces(s)[1..] == rest;
      }
    }
  }

  lemma {:induction false} DropEmptyLength(ps: seq<seq<byte>>)
    ensures TotalLength(DropEmpty(ps)) == TotalLength(ps)
  {
    if ps != [] {
      DropEmptyLength(ps[1..]);
      TotalLengthAppend(if ps[0] == [] then [] else [ps[0]], DropEmpty(ps[1..]));
    }
  }

  lemma {:induction false} TotalLengthAppend(a: seq<seq<byte>>, b: seq<seq<byte>>)
    ensures TotalLength(a + b) == TotalLength(a) + TotalLength(b)
  {
    if a != [] {
      assert (a + b)[0] == a[0] && (a + b)[1..] == a[1..] + b;
      TotalLengthAppend(a[1..], b);
    } else {
      assert a + b == b;
    }
  }

  /** Byte conservation: the records hold every input byte except the newlines. */
  lemma ByteConservation(s: seq<byte>)
    ensures TotalLength(Records(s)) == |s| - CountNewlines(s)
    ensures s == [] ==> Records(s) == []
  {
    PiecesLength(s);
    DropEmptyLength(Pieces(s));
  }

  /** A carriage return before the newline stays inside the record. */
  lemma CarriageReturnKept(line: seq<byte>)
    requires Newline !in line
    ensures Records(line + [CarriageReturn, Newline]) == [line + [CarriageReturn]]
  {
    var withCR := line + [CarriageReturn];
    assert line + [CarriageReturn, Newline] == withCR + [Newline];
    TrailingNewline(withCR);
    RecordsOfNewlineFree(withCR);
  }

  // ---------------------------------------------------------------------------
  // The writer's format read back.

  /** One line and its newline after a complete line add that line's record, if it has one. */
  lemma RecordsOfAppendedLine(c: seq<byte>, line: seq<byte>)
    requires c == [] || c[|c| - 1] == Newline
    requires Newline !in line
    ensures Records(c + line + [Newline]) == Records(c) + (if line == [] then [] else [line])
  {
    assert c + line + [Newline] == c + (line + [Newline]);
    RecordsAfterNewline(c, line + [Newline]);
    TrailingNewline(line);
    RecordsOfNewlineFree(line);
  }

  /** The records of serialized data lines are exactly their non-empty members. */
  lemma {:induction false} RecordsOfSerialized(ds: seq<seq<byte>>)
    requires forall d :: d in ds ==> Newline !in d
    ensures Records(Serialize(ds)) == DropEmpty(ds)
  {
    if ds != [] {
      var d, tail := ds[0], ds[1..];
      assert d in ds;
      assert forall e :: e in tail ==> e in ds;
      RecordsOfSerialized(tail);
      var line := d + [Newline];
      RecordsAfterNewline(line, Serialize(tail));
      TrailingNewline(d);
      RecordsOfNewlineFree(d);
    }
  }

  /** Appending serialized data lines after a complete line adds exactly their non-empty members. */
  lemma RecordsOfAppended(c: seq<byte>, ds: seq<seq<byte>>)
    requires c == [] || c[|c| - 1] == Newline
    requires forall d :: d in ds ==> Newline !in d
    ensures Records(c + Serialize(ds)) == Records(c) + DropEmpty(ds)
  {
    RecordsAfterNewline(c, Serialize(ds));
    RecordsOfSerialized(ds);
  }

  /** Round trip: reading what was written gives back the written lines. */
  lemma RoundTrip(ds: seq<seq<byte>>)
    requires forall d :: d in ds ==> d != [] && Newline !in d
    ensures Records(Serialize(ds)) == ds
  {
    assert forall d :: d in ds ==> Newline !in d;
    RecordsOfSerialized(ds);
    DropEmptyKeepsNonEmpty(ds);
  }

  /**
   * Appending to a file whose last line lacks its newline glues the first
   * written line onto that last line: they come back as one record.
   */
  lemma AppendToUnterminatedLine(last: seq<byte>, d: seq<byte>)
    requires last != [] && Newline !in last && Newline !in d
    ensures Records(last + Serialize([d])) == [last + d]
  {
    assert last + Serialize([d]) == (last + d) + [Newline];
    TrailingNewline(last + d);
    RecordsOfNewlineFree(last + d);
  }
}
