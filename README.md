# patchpyc in Dafny

A model of `patchpyc.py`, a tool that rewrites the `co_filename` field of every
code object inside a compiled Python module (`.pyc`) and leaves the rest of the
file unchanged. It has three parts, one Dafny module each, plus shared types:

- `Recoding` (recode.dfy): a code object is a tree (`CodeUnit`). Its constants
  are either literals or further code objects. `Recode` is the rewrite `recode`
  performs, as a pure function. `RecodeUnit` is the same rewrite done the way
  the source does it: a loop that builds `constlist`, then the argument list
  for the code-object constructor, whose shape depends on the major version
  (14 arguments on Python 2; on Python 3 a 15th, `kwonlyargcount`, at index 1).
  `BindArgs` is the constructor's positional parameter order.
- `PycFormat` (pyc.dfy): the container, as the code reads it. There is a
  4-byte magic number, then a 4-byte modification date, then (from Python 3.3)
  a 4-byte source size, and then one marshalled value. `ReadPyc` reads it through an `InputFile` stream
  whose `Read(n)` returns at most `n` bytes, like Python's `read`. It is proved
  equal to the function `ParsePyc`. `WritePyc` writes through an `OutputFile`
  and is proved equal to `EmitPyc`.
- `Patching` (patch.dfy): `patchpyc` over a file system that maps paths to
  bytes. `PatchPyc` is proved equal to `Patch`. The lemmas show that the
  written file reads back with the old header and the rewritten tree, and that
  patching a file in place twice with the same name is the same as once.

The interpreter's magic number and its `(major, minor)` version are
parameters. `marshal.dump` / `marshal.load` are the function parameters
`marshal: Const -> Bytes` and `unmarshal: Bytes -> Option<Const>`, where None
means `marshal.load` raised. Two assumptions are made about them, and only in the lemmas that need them:
`MarshalPair` says that `unmarshal` inverts `marshal` on every value the
running interpreter can hold (no keyword-only count before Python 3), and that
it fails on empty input, as `marshal.load` does at end of file.
`DecodesForVersion` says that every code object `unmarshal` returns has the
running interpreter's field shape. `PatchPyc` needs only the second.

Two details of the code matter for the model:

- The code never checks the header's length. A file shorter than 4 bytes
  fails the magic check. After the magic number, short reads of the date and
  the size go undetected (`fin.read(4)` just returns fewer bytes near the end
  of the file), and only `marshal.load` then fails on what is left.
  `ParsePyc` models these short reads. `ParsedHeaderIsFull` shows that every
  header field is a full 4 bytes whenever the read succeeds.
- The source-size field is selected by the running interpreter's version,
  `sys.version_info[0:2] >= (3, 3)` (patchpyc.py:34), not by anything in the
  file. The keyword-only count is selected by a different test, `major >= 3`
  (patchpyc.py:79).

## Model

| member | source | states |
|---|---|---|
| Recoding.Recode | patchpyc.py:52-84 | the result's filename is the new one; every other field is copied; the constants keep their number and order; literals are unchanged at their positions; a nested code object stays a code object at its position, with the new filename |
| Recoding.RecodeConst | patchpyc.py:56-60 | one constant: a code object is rewritten with the new filename and stays a code object; any other constant is copied unchanged |
| Recoding.RecodeReachesEveryUnit | patchpyc.py:55-71 | after the rewrite, every code object at every depth of the tree has the new filename |
| Recoding.RecodePreservesShape | patchpyc.py:56-80 | after the rewrite, at every depth, all fields except the filename are equal to the input's (instruction bytes, names, line table, counts, flags, ...), with literals equal and code objects in the same positions |
| Recoding.RecodeCharacterized | patchpyc.py:52-84 | the two properties above determine the result: any tree with the input's shape and the new filename everywhere equals `Recode` of the input |
| Recoding.RecodeIdempotent | patchpyc.py:52-84 | rewriting twice with the same filename gives the same tree as rewriting once |
| Recoding.RecodeFixesRewritten | patchpyc.py:52-84 | a tree that already has the filename everywhere is returned unchanged |
| Recoding.RecodeFitsVersion | patchpyc.py:78-80 | the rewritten tree has the field shape of the same interpreter version as the input (no keyword-only count before Python 3) |
| Recoding.BaseArgs | patchpyc.py:62-76 | the Python 2 argument list has 14 entries |
| Recoding.ConstructorArgs | patchpyc.py:62-80 | 14 entries for major version 2; for major version 3 and above, 15 entries with `kwonlyargcount` at index 1, the first base entry at index 0 and the other 13 base entries shifted up by one |
| Recoding.BindArgs | patchpyc.py:83 | the code-object constructor accepts 12 to 14 positional arguments before Python 3 and 13 to 15 from Python 3 on; before Python 3 the built object has no keyword-only count |
| Recoding.BindConstructorArgs | patchpyc.py:62-83 | the constructor accepts the list `recode` builds, and every value lands in the parameter of the same name: the result is the old object with the new constants and filename |
| Recoding.RecodeUnit | patchpyc.py:52-84 | the loop over the constants, the version-shaped argument list and the constructor call produce exactly `Recode` of the input |
| PycFormat.InputFile.constructor | patchpyc.py:22 | a file opened for reading is at offset 0 of its contents |
| PycFormat.InputFile.Read | patchpyc.py:25-35 | `read(n)` returns the next at most `n` bytes and advances past them |
| PycFormat.InputFile.ReadRest | patchpyc.py:37-38 | the marshalled value is read from the rest of the file, up to its end |
| PycFormat.OutputFile.constructor | patchpyc.py:44 | a file opened for writing starts empty |
| PycFormat.OutputFile.Write | patchpyc.py:46-49 | each write appends its bytes to the file |
| PycFormat.ReadAt | patchpyc.py:25-35 | a read returns at most `n` bytes, and exactly the `n` bytes at the offset when the file is long enough |
| PycFormat.ParsePyc | patchpyc.py:21-40 | the read fails with `IncompatibleFormat` exactly when the first (at most) 4 bytes differ from the expected magic; it fails with `MalformedContainer` exactly when the magic matches and unmarshalling the rest after the header fails; otherwise the value is what the rest unmarshals to |
| PycFormat.ReadPyc | patchpyc.py:21-40 | reading through the stream gives `ParsePyc`'s outcome; after a magic mismatch only the magic number has been read, otherwise the whole file has |
| PycFormat.ParsedHeaderLayout | patchpyc.py:23-36 | on success the header has 2 chunks, or 3 from Python 3.3, the first is the magic number, and together they are the leading bytes of the file in order |
| PycFormat.ParsedHeaderIsFull | patchpyc.py:30-38 | because unmarshalling empty input fails, a successful read has a file longer than the header, and every header chunk has exactly 4 bytes |
| PycFormat.EmitPyc | patchpyc.py:43-49 | the written file is the header chunks followed by the marshalled value, which ends the file |
| PycFormat.WritePyc | patchpyc.py:43-49 | the loop writes each header chunk verbatim and in order, then the marshalled value: the result is `EmitPyc` |
| PycFormat.ReadBackWritten | patchpyc.py:21-49 | reading back what was written, with the same version and magic number, gives the same header chunks and the same value |
| PycFormat.WriteReplaysHeader | patchpyc.py:43-47 | writing with the header of a file that was read reproduces that file's header bytes exactly |
| Patching.Patch | patchpyc.py:87-102 | patching fails on a missing input file, and fails with `IncompatibleFormat` exactly when the magic differs; any failure of `read_pyc` (a wrong magic number, or `marshal.load` failing) is passed on unchanged and nothing is written; after a successful read, patching succeeds exactly when the value is a code object; on success the output path is added or replaced and no other file changes |
| Patching.PatchPyc | patchpyc.py:100-102 | `read_pyc`, then `recode`, then `write_pyc` give `Patch`'s outcome |
| Patching.PatchedFileReadsBack | patchpyc.py:87-102 | reading the written file back gives the original header, and a code tree with the new filename everywhere and every other field unchanged at every depth |
| Patching.PatchInPlaceIdempotent | patchpyc.py:87-102 | patching a file in place (same input and output path), then doing it again with the same filename, leaves the files as after the first patch |

## Left out

- `marshal.load` / `marshal.dump` (lines 38, 49): these are the function parameters `unmarshal` and `marshal`. Their encoding is not modelled. Only `MarshalPair` and `DecodesForVersion` are assumed, in the members that need them.
- `marshal.load` is taken to consume the rest of the file. Whether trailing bytes after one value are an error is left to `unmarshal`.
- The magic-number lookup through `importlib.util` / `imp` (lines 13-18) and the `sys.version_info` tests (lines 34, 79): these are the parameters `magic` and `v`.
- The header layout of Python 3.7 and later (PEP 552): 16 bytes, a flags word after the magic number, then the date or a source hash, then the size. The code reads 12 bytes there, as on 3.3-3.6, and so does the model. Its framing is correct for Python 2 and 3.0-3.6.
- Opening and closing files, and the `with` blocks (lines 22, 44): a file is its byte contents, and the file system is a map from path to contents. I/O errors other than a missing input file are not modelled.
- `main`, argument parsing, the usage message and `sys.exit(1)` (lines 105-118): command-line plumbing.
- test.py is not part of this model. It is an integration driver that compiles, runs and deletes files. It does `patchpyc` in place, which is the case `PatchInPlaceIdempotent` and `PatchedFileReadsBack` (with equal paths) cover.
- Recoding.BindArgs: only the positional binding and argument kinds of the code-object constructor are modelled, for Python 2 and Python 3.0-3.7. Two things are left out: the constructor's validation of values, and the longer signatures of Python 3.8 and later (`co_posonlyargcount` and others). On those versions the source's 15-argument call is refused.
- Recoding.Literal: complex numbers, frozensets and `Ellipsis` are not listed separately. `recode` copies every non-code constant unchanged, so their kind does not matter here.
- Patching.PatchPyc: requires `DecodesForVersion`, which says the code objects `marshal.load` returns have the field shape of the running interpreter. On Python 2 that means no keyword-only count. With it, the constructor's `ShapeMismatch` failure cannot occur, so the model has no such error.
