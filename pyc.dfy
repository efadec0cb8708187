/**
 * The `.pyc` container as patchpyc.py reads and writes it (`read_pyc`,
 * `write_pyc`): a 4-byte magic number, a 4-byte modification date, from
 * Python 3.3 on a 4-byte source size, and then one marshalled value that runs
 * to the end of the file. (From Python 3.7 on, CPython's own header has a
 * 4-byte flags word after the magic number; the code does not read it.)
 *
 * `marshal` is not modelled: its two directions are function values passed in
 * (`marshal: Const -> Bytes` for `marshal.dump`, `unmarshal: Bytes ->
 * Option<Const>` for `marshal.load`, None when it raises). The interpreter's
 * magic number and version are parameters too.
 */
module PycFormat {
  import opened Basics
  import opened Recoding

  /** `sys.version_info[0:2]`. */
  datatype Version = Version(major: nat, minor: nat)

  /** The source-size field exists from Python 3.3 on. */
  predicate HasSourceSize(v: Version)
  {
    v.major > 3 || (v.major == 3 && v.minor >= 3)
  }

  /** Every header field is read with `fin.read(4)`. */
  const FieldSize: nat := 4

  function HeaderFields(v: Version): nat
  {
    if HasSourceSize(v) then 3 else 2
  }

  function HeaderSize(v: Version): nat
  {
    FieldSize * HeaderFields(v)
  }

  /** What `read_pyc` returns: the header chunks in file order, and the value. */
  datatype Pyc = Pyc(header: seq<Bytes>, code: Const)

  /** The magic number differs; or `marshal.load` fails on the rest. */
  datatype PycError = IncompatibleFormat | MalformedContainer

  /** The header chunks written one after the other. */
  function Concat(chunks: seq<Bytes>): Bytes
  {
    if chunks == [] then [] else Concat(chunks[..|chunks| - 1]) + chunks[|chunks| - 1]
  }

  /** A header as the interpreter writes it: magic first, every field 4 bytes. */
  predicate WellFormedHeader(header: seq<Bytes>, magic: Bytes, v: Version)
  {
    |header| == HeaderFields(v) && header[0] == magic &&
    forall i :: 0 <= i < |header| ==> |header[i]| == FieldSize
  }

  // ---------------------------------------------------------------------------
  // Streams
  // ---------------------------------------------------------------------------

  /** A file opened with mode 'rb': its bytes and the current position. */
  class InputFile {
    const data: Bytes
    var pos: nat

    ghost predicate Valid()
      reads this
    {
      pos <= |data|
    }

    constructor (contents: Bytes)
      ensures Valid() && data == contents && pos == 0
    {
      data := contents;
      pos := 0;
    }

    /** `read(n)`: at most `n` bytes, fewer at the end of the file. */
    method Read(n: nat) returns (chunk: Bytes)
      requires Valid()
      modifies this
      ensures Valid()
      ensures chunk == data[old(pos)..Min(old(pos) + n, |data|)]
      ensures pos == old(pos) + |chunk|
    {
      var end := Min(pos + n, |data|);
      chunk := data[pos..end];
      pos := end;
    }

    /** Everything up to the end of the file, as `marshal.load` consumes it. */
    method ReadRest() returns (rest: Bytes)
      requires Valid()
      modifies this
      ensures Valid()
      ensures rest == data[old(pos)..] && pos == |data|
    {
      rest := data[pos..];
      pos := |data|;
    }
  }

  /** A file opened with mode 'wb': everything written so far. */
  class OutputFile {
    var written: Bytes

    constructor ()
      ensures written == []
    {
      written := [];
    }

    method Write(b: Bytes)
      modifies this
      ensures written == old(written) + b
    {
      written := written + b;
    }
  }

  // ---------------------------------------------------------------------------
  // Reading
  // ---------------------------------------------------------------------------

  /** What `fin.read(n)` returns when the stream is at offset `at`. */
  function ReadAt(s: Bytes, at: nat, n: nat): (chunk: Bytes)
    ensures |chunk| <= n
    ensures |s| >= at + n ==> chunk == s[at..at + n]
  {
    s[Min(at, |s|)..Min(at + n, |s|)]
  }

  /** The outcome of `read_pyc` on a file holding `file`. */
  function ParsePyc(file: Bytes, magic: Bytes, v: Version, unmarshal: Bytes -> Option<Const>)
    : (r: Result<Pyc, PycError>)
    ensures r == Err(IncompatibleFormat) <==> file[..Min(FieldSize, |file|)] != magic
    ensures r == Err(MalformedContainer) <==>
              file[..Min(FieldSize, |file|)] == magic && unmarshal(file[Min(HeaderSize(v), |file|)..]) == None
    ensures r.Ok? ==> r.value.code == unmarshal(file[Min(HeaderSize(v), |file|)..]).value
  {
    var magicRead := ReadAt(file, 0, FieldSize);
    if magicRead != magic then
      Err(IncompatibleFormat)
    else
      var moddate := ReadAt(file, FieldSize, FieldSize);
      var header :=
        if HasSourceSize(v) then [magicRead, moddate, ReadAt(file, 2 * FieldSize, FieldSize)]
        else [magicRead, moddate];
      match unmarshal(file[Min(HeaderSize(v), |file|)..])
      case None => Err(MalformedContainer)
      case Some(x) => Ok(Pyc(header, x))
  }

  /**
   * `read_pyc`: read the magic number and stop at once if it is not the
   * interpreter's; otherwise read the date, the source size when the version
   * has one, and unmarshal the rest. `consumed` is how far the file was read.
   */
  method ReadPyc(file: Bytes, magic: Bytes, v: Version, unmarshal: Bytes -> Option<Const>)
    returns (r: Result<Pyc, PycError>, consumed: nat)
    ensures r == ParsePyc(file, magic, v, unmarshal)
    ensures consumed == if r == Err(IncompatibleFormat) then Min(FieldSize, |file|) else |file|
  {
    var fin := new InputFile(file);
    var header: seq<Bytes> := [];
    var magicRead := fin.Read(FieldSize);
    assert magicRead == ReadAt(file, 0, FieldSize) == file[..Min(FieldSize, |file|)];
    if magicRead != magic {
      r, consumed := Err(IncompatibleFormat), fin.pos;
      return;
    }
    header := header + [magicRead];
    var moddate := fin.Read(FieldSize);
    assert moddate == ReadAt(file, FieldSize, FieldSize);
    header := header + [moddate];
    if HasSourceSize(v) {
      var srcsize := fin.Read(FieldSize);
      assert srcsize == ReadAt(file, 2 * FieldSize, FieldSize);
      header := header + [srcsize];
    }
    assert fin.pos == Min(HeaderSize(v), |file|);
    var rest := fin.ReadRest();
    assert rest == file[Min(HeaderSize(v), |file|)..];
    assert header == if HasSourceSize(v)
                     then [ReadAt(file, 0, FieldSize), ReadAt(file, FieldSize, FieldSize), ReadAt(file, 2 * FieldSize, FieldSize)]
                     else [ReadAt(file, 0, FieldSize), ReadAt(file, FieldSize, FieldSize)];
    var value := unmarshal(rest);
    r := if value.Some? then Ok(Pyc(header, value.value)) else Err(MalformedContainer);
    assert r == ParsePyc(file, magic, v, unmarshal);
    consumed := fin.pos;
  }

  /**
   * A successful read returns one chunk per header field, magic first, and
   * the chunks are the leading bytes of the file in order.
   */
  lemma ParsedHeaderLayout(file: Bytes, magic: Bytes, v: Version, unmarshal: Bytes -> Option<Const>)
    requires ParsePyc(file, magic, v, unmarshal).Ok?
    ensures var h := ParsePyc(file, magic, v, unmarshal).value.header;
            |h| == HeaderFields(v) && h[0] == magic &&
            Concat(h) == file[..Min(HeaderSize(v), |file|)]
  {
    var h := ParsePyc(file, magic, v, unmarshal).value.header;
    var n := |file|;
    var a, b := Min(FieldSize, n), Min(2 * FieldSize, n);
    assert h[0] == file[..a];
    assert h[1] == file[a..b];
    assert Concat(h[..1]) == h[0] by {
      assert h[..1][..0] == [];
    }
    assert Concat(h[..2]) == Concat(h[..1]) + h[1] by {
      assert h[..2][..1] == h[..1];
    }
    SliceJoin(file, a, b);
    if HasSourceSize(v) {
      var c := Min(3 * FieldSize, n);
      assert h[2] == file[b..c];
      assert Concat(h) == Concat(h[..2]) + h[2] by {
        assert h[..|h| - 1] == h[..2];
      }
      SliceJoin(file, b, c);
    } else {
      assert h[..2] == h;
    }
  }

  lemma SliceJoin(s: Bytes, i: nat, j: nat)
    requires i <= j <= |s|
    ensures s[..i] + s[i..j] == s[..j]
  {
  }

  /**
   * `marshal.load` fails on an empty stream, so when it succeeds the file ran
   * past the header and every header field was read in full.
   */
  lemma ParsedHeaderIsFull(file: Bytes, magic: Bytes, v: Version, unmarshal: Bytes -> Option<Const>)
    requires unmarshal([]) == None
    requires ParsePyc(file, magic, v, unmarshal).Ok?
    ensures |file| > HeaderSize(v)
    ensures WellFormedHeader(ParsePyc(file, magic, v, unmarshal).value.header, magic, v)
  {
  }

  // ---------------------------------------------------------------------------
  // Writing
  // ---------------------------------------------------------------------------

  /** What `write_pyc` leaves in the file. */
  function EmitPyc(header: seq<Bytes>, code: Const, marshal: Const -> Bytes): (file: Bytes)
    ensures |file| == |Concat(header)| + |marshal(code)|
    ensures file[..|Concat(header)|] == Concat(header)
    ensures file[|Concat(header)|..] == marshal(code)
  {
    Concat(header) + marshal(code)
  }

  /** `write_pyc`: every header chunk verbatim and in order, then the value. */
  method WritePyc(header: seq<Bytes>, code: Const, marshal: Const -> Bytes) returns (file: Bytes)
    ensures file == EmitPyc(header, code, marshal)
  {
    var fout := new OutputFile();
    for i := 0 to |header|
      invariant fout.written == Concat(header[..i])
    {
      assert header[..i + 1][..i] == header[..i];
      fout.Write(header[i]);
    }
    assert header[..|header|] == header;
    fout.Write(marshal(code));
    file := fout.written;
  }

  /** Concatenating well-formed chunks puts chunk `i` at offset `4 * i`. */
  lemma {:induction false} ConcatFields(chunks: seq<Bytes>)
    requires forall i :: 0 <= i < |chunks| ==> |chunks[i]| == FieldSize
    ensures |Concat(chunks)| == FieldSize * |chunks|
    ensures forall i :: 0 <= i < |chunks| ==>
              Concat(chunks)[FieldSize * i..FieldSize * i + FieldSize] == chunks[i]
  {
    if chunks != [] {
      var k := |chunks| - 1;
      var init := chunks[..k];
      ConcatFields(init);
      assert Concat(chunks) == Concat(init) + chunks[k];
      forall i | 0 <= i < |chunks|
        ensures Concat(chunks)[FieldSize * i..FieldSize * i + FieldSize] == chunks[i]
      {
        if i < k {
          assert init[i] == chunks[i];
          SliceOfLeft(Concat(init), chunks[k], FieldSize * i, FieldSize * i + FieldSize);
        } else {
          SliceOfRight(Concat(init), chunks[k]);
        }
      }
    }
  }

  lemma SliceOfLeft(a: Bytes, b: Bytes, i: nat, j: nat)
    requires i <= j <= |a|
    ensures (a + b)[i..j] == a[i..j]
  {
  }

  lemma SliceOfRight(a: Bytes, b: Bytes)
    ensures (a + b)[|a|..|a| + |b|] == b
  {
  }

  /**
   * Reading back what `write_pyc` wrote, on the same interpreter, gives the
   * same header chunks and the same value.
   */
  lemma ReadBackWritten(header: seq<Bytes>, code: Const, magic: Bytes, v: Version,
                        marshal: Const -> Bytes, unmarshal: Bytes -> Option<Const>)
    requires WellFormedHeader(header, magic, v)
    requires unmarshal(marshal(code)) == Some(code)
    ensures ParsePyc(EmitPyc(header, code, marshal), magic, v, unmarshal) == Ok(Pyc(header, code))
  {
    var file := EmitPyc(header, code, marshal);
    ConcatFields(header);
    assert file[..|Concat(header)|] == Concat(header);
    forall i | 0 <= i < |header|
      ensures ReadAt(file, FieldSize * i, FieldSize) == header[i]
    {
      assert file[FieldSize * i..FieldSize * i + FieldSize]
          == Concat(header)[FieldSize * i..FieldSize * i + FieldSize];
    }
    assert ReadAt(file, 0, FieldSize) == header[0];
    assert ReadAt(file, FieldSize, FieldSize) == header[1];
    assert file[..Min(FieldSize, |file|)] == ReadAt(file, 0, FieldSize);
    assert file[Min(HeaderSize(v), |file|)..] == marshal(code);
    if HasSourceSize(v) {
      assert ReadAt(file, 2 * FieldSize, FieldSize) == header[2];
      assert header == [header[0], header[1], header[2]];
    } else {
      assert header == [header[0], header[1]];
    }
  }

  /**
   * Writing a file that was read replays its header byte for byte, whatever
   * value is written after it.
   */
  lemma WriteReplaysHeader(file: Bytes, magic: Bytes, v: Version, code: Const,
                           marshal: Const -> Bytes, unmarshal: Bytes -> Option<Const>)
    requires unmarshal([]) == None
    requires ParsePyc(file, magic, v, unmarshal).Ok?
    ensures var out := EmitPyc(ParsePyc(file, magic, v, unmarshal).value.header, code, marshal);
            |out| >= HeaderSize(v) && out[..HeaderSize(v)] == file[..HeaderSize(v)]
  {
    ParsedHeaderLayout(file, magic, v, unmarshal);
    ParsedHeaderIsFull(file, magic, v, unmarshal);
  }
}
