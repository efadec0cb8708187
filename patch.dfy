/**
 * `patchpyc(oldpyc, newpyc, newpath)`: read a `.pyc` file, rewrite every
 * `co_filename` in its code object, and write the result with the original
 * header. The file system is a map from paths to file contents; the old file
 * is read in full before the new one is written, so both paths may be equal.
 */
module Patching {
  import opened Basics
  import opened Recoding
  import opened PycFormat

  type Path = string

  /**
   * `open` fails on a missing file; `read_pyc` raises; or the unmarshalled
   * value is not a code object and `recode` finds no `co_consts` on it.
   */
  datatype PatchError = NoSuchFile(path: Path) | ReadFailed(cause: PycError) | NotCodeObject

  /**
   * `marshal.load` undoes `marshal.dump` on every value the running
   * interpreter can hold, and fails on an empty stream.
   */
  ghost predicate MarshalPair(marshal: Const -> Bytes, unmarshal: Bytes -> Option<Const>, major: nat)
  {
    unmarshal([]) == None &&
    forall x :: ConstFitsVersion(x, major) ==> unmarshal(marshal(x)) == Some(x)
  }

  /** The code objects `marshal.load` builds are those of the running interpreter. */
  ghost predicate DecodesForVersion(unmarshal: Bytes -> Option<Const>, major: nat)
  {
    forall b :: unmarshal(b).Some? && unmarshal(b).value.Nested? ==> FitsVersion(unmarshal(b).value.unit, major)
  }

  /** The file system after `patchpyc`, or why it raised. */
  function Patch(files: map<Path, Bytes>, oldPath: Path, newPath: Path, newFilename: string,
                 magic: Bytes, v: Version, marshal: Const -> Bytes, unmarshal: Bytes -> Option<Const>)
    : (r: Result<map<Path, Bytes>, PatchError>)
    ensures r == Err(NoSuchFile(oldPath)) <==> oldPath !in files
    ensures oldPath in files ==>
              (r == Err(ReadFailed(IncompatibleFormat)) <==>
               files[oldPath][..Min(FieldSize, |files[oldPath]|)] != magic)
    ensures oldPath in files && ParsePyc(files[oldPath], magic, v, unmarshal).Err? ==>
              r == Err(ReadFailed(ParsePyc(files[oldPath], magic, v, unmarshal).error))
    ensures oldPath in files && ParsePyc(files[oldPath], magic, v, unmarshal).Ok? ==>
              (r.Ok? <==> ParsePyc(files[oldPath], magic, v, unmarshal).value.code.Nested?)
    ensures r.Ok? ==> r.value.Keys == files.Keys + {newPath}
    ensures r.Ok? ==> forall p :: p in files && p != newPath ==> r.value[p] == files[p]
  {
    if oldPath !in files then
      Err(NoSuchFile(oldPath))
    else
      match ParsePyc(files[oldPath], magic, v, unmarshal)
      case Err(e) => Err(ReadFailed(e))
      case Ok(Pyc(header, Prim(_))) => Err(NotCodeObject)
      case Ok(Pyc(header, Nested(u))) =>
        Ok(files[newPath := EmitPyc(header, Nested(Recode(u, newFilename)), marshal)])
  }

  /** `patchpyc` as the source runs it: `read_pyc`, `recode`, `write_pyc`. */
  method PatchPyc(files: map<Path, Bytes>, oldPath: Path, newPath: Path, newFilename: string,
                  magic: Bytes, v: Version, marshal: Const -> Bytes, unmarshal: Bytes -> Option<Const>)
    returns (r: Result<map<Path, Bytes>, PatchError>)
    requires DecodesForVersion(unmarshal, v.major)
    ensures r == Patch(files, oldPath, newPath, newFilename, magic, v, marshal, unmarshal)
  {
    if oldPath !in files {
      return Err(NoSuchFile(oldPath));
    }
    var read, _ := ReadPyc(files[oldPath], magic, v, unmarshal);
    if read.Err? {
      return Err(ReadFailed(read.error));
    }
    var header, value := read.value.header, read.value.code;
    if value.Prim? {
      return Err(NotCodeObject);
    }
    var rest := files[oldPath][Min(HeaderSize(v), |files[oldPath]|)..];
    assert unmarshal(rest) == Some(value);
    var code := RecodeUnit(value.unit, newFilename, v.major);
    var out := WritePyc(header, Nested(code), marshal);
    r := Ok(files[newPath := out]);
  }

  /**
   * Reading the new file back gives the old header and a code object in which
   * every unit carries the new filename and nothing else has changed.
   */
  lemma PatchedFileReadsBack(files: map<Path, Bytes>, oldPath: Path, newPath: Path, newFilename: string,
                             magic: Bytes, v: Version, marshal: Const -> Bytes, unmarshal: Bytes -> Option<Const>,
                             header: seq<Bytes>, u: CodeUnit)
    requires MarshalPair(marshal, unmarshal, v.major) && DecodesForVersion(unmarshal, v.major)
    requires oldPath in files && ParsePyc(files[oldPath], magic, v, unmarshal) == Ok(Pyc(header, Nested(u)))
    ensures Patch(files, oldPath, newPath, newFilename, magic, v, marshal, unmarshal).Ok?
    ensures var out := Patch(files, oldPath, newPath, newFilename, magic, v, marshal, unmarshal).value;
            newPath in out &&
            var back := ParsePyc(out[newPath], magic, v, unmarshal);
            back.Ok? && back.value.header == header && back.value.code.Nested? &&
            FilenameEverywhere(back.value.code.unit, newFilename) && SameShape(u, back.value.code.unit)
  {
    var w := Recode(u, newFilename);
    var rest := files[oldPath][Min(HeaderSize(v), |files[oldPath]|)..];
    assert unmarshal(rest) == Some(Nested(u));
    RecodeFitsVersion(u, newFilename, v.major);
    assert ConstFitsVersion(Nested(w), v.major);
    ParsedHeaderIsFull(files[oldPath], magic, v, unmarshal);
    ReadBackWritten(header, Nested(w), magic, v, marshal, unmarshal);
    RecodeReachesEveryUnit(u, newFilename);
    RecodePreservesShape(u, newFilename);
  }

  /** Patching a file in place a second time with the same filename changes nothing. */
  lemma PatchInPlaceIdempotent(files: map<Path, Bytes>, path: Path, newFilename: string,
                               magic: Bytes, v: Version, marshal: Const -> Bytes, unmarshal: Bytes -> Option<Const>)
    requires MarshalPair(marshal, unmarshal, v.major) && DecodesForVersion(unmarshal, v.major)
    requires Patch(files, path, path, newFilename, magic, v, marshal, unmarshal).Ok?
    ensures var once := Patch(files, path, path, newFilename, magic, v, marshal, unmarshal).value;
            Patch(once, path, path, newFilename, magic, v, marshal, unmarshal) == Ok(once)
  {
    var once := Patch(files, path, path, newFilename, magic, v, marshal, unmarshal).value;
    var p := ParsePyc(files[path], magic, v, unmarshal).value;
    var u := p.code.unit;
    var w := Recode(u, newFilename);
    var rest := files[path][Min(HeaderSize(v), |files[path]|)..];
    assert unmarshal(rest) == Some(Nested(u));
    RecodeFitsVersion(u, newFilename, v.major);
    assert ConstFitsVersion(Nested(w), v.major);
    ParsedHeaderIsFull(files[path], magic, v, unmarshal);
    ReadBackWritten(p.header, Nested(w), magic, v, marshal, unmarshal);
    RecodeIdempotent(u, newFilename);
    assert once[path := EmitPyc(p.header, Nested(Recode(w, newFilename)), marshal)] == once;
  }
}
