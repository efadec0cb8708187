/**
 * The code-object rewrite of patchpyc.py (`recode`): a compiled unit is a tree
 * whose constants are either opaque literals or further compiled units, and the
 * rewrite returns a copy of the tree in which every unit, at every depth,
 * carries the new `co_filename`.
 */
module Recoding {
  import opened Basics

  /** Non-code constants. The rewrite never looks inside them. */
  datatype Literal =
    | NoneLit
    | BoolLit(b: bool)
    | IntLit(i: int)
    | FloatLit(bits: bv64)
    | StrLit(s: string)
    | BytesLit(bytes: Bytes)
    | TupleLit(items: seq<Literal>)

  /** One element of `co_consts`: a literal, or a nested code object. */
  datatype Const = Prim(lit: Literal) | Nested(unit: CodeUnit)

  /**
   * A code object. `kwonlyargcount` exists only on Python 3; a Python 2 code
   * object is represented with it set to 0 (see FitsVersion).
   */
  datatype CodeUnit = CodeUnit(
    argcount: int,
    kwonlyargcount: int,
    nlocals: int,
    stacksize: int,
    flags: int,
    code: Bytes,
    consts: seq<Const>,
    names: seq<string>,
    varnames: seq<string>,
    filename: string,
    name: string,
    firstlineno: int,
    lnotab: Bytes,
    freevars: seq<string>,
    cellvars: seq<string>)

  // ---------------------------------------------------------------------------
  // Properties of trees of code objects
  // ---------------------------------------------------------------------------

  /** Every field other than `co_filename` and `co_consts` agrees. */
  predicate SameFields(a: CodeUnit, b: CodeUnit)
  {
    a.argcount == b.argcount && a.kwonlyargcount == b.kwonlyargcount &&
    a.nlocals == b.nlocals && a.stacksize == b.stacksize && a.flags == b.flags &&
    a.code == b.code && a.names == b.names && a.varnames == b.varnames &&
    a.name == b.name && a.firstlineno == b.firstlineno && a.lnotab == b.lnotab &&
    a.freevars == b.freevars && a.cellvars == b.cellvars
  }

  /**
   * `a` and `b` are the same tree up to filenames: same fields at every unit,
   * same number and order of constants, identical literals, and nested units
   * at the same positions that are again the same up to filenames.
   */
  predicate SameShape(a: CodeUnit, b: CodeUnit)
    decreases a
  {
    SameFields(a, b) && |a.consts| == |b.consts| &&
    forall i :: 0 <= i < |a.consts| ==> SameConstShape(a.consts[i], b.consts[i])
  }

  predicate SameConstShape(x: Const, y: Const)
    decreases x
  {
    match x
    case Prim(_) => y == x
    case Nested(u) => y.Nested? && SameShape(u, y.unit)
  }

  /** Every code object in the tree, the root included, has filename `f`. */
  predicate FilenameEverywhere(c: CodeUnit, f: string)
    decreases c
  {
    c.filename == f &&
    forall i :: 0 <= i < |c.consts| ==> ConstFilenameEverywhere(c.consts[i], f)
  }

  predicate ConstFilenameEverywhere(k: Const, f: string)
    decreases k
  {
    k.Nested? ==> FilenameEverywhere(k.unit, f)
  }

  /**
   * The tree has the shape of code objects of an interpreter with major
   * version `major`: before Python 3 there is no keyword-only argument count.
   */
  predicate FitsVersion(c: CodeUnit, major: nat)
    decreases c
  {
    (major < 3 ==> c.kwonlyargcount == 0) &&
    forall i :: 0 <= i < |c.consts| ==> ConstFitsVersion(c.consts[i], major)
  }

  predicate ConstFitsVersion(k: Const, major: nat)
    decreases k
  {
    k.Nested? ==> FitsVersion(k.unit, major)
  }

  // ---------------------------------------------------------------------------
  // The rewrite
  // ---------------------------------------------------------------------------

  /**
   * `recode(oldcode, newfilename)`: the constants are rewritten one by one
   * (nested code objects recursively, everything else copied), and the unit
   * is rebuilt with the new filename.
   */
  function Recode(c: CodeUnit, newFilename: string): (r: CodeUnit)
    ensures r.filename == newFilename
    ensures SameFields(c, r)
    ensures |r.consts| == |c.consts|
    ensures forall i :: 0 <= i < |c.consts| && c.consts[i].Prim? ==> r.consts[i] == c.consts[i]
    ensures forall i :: 0 <= i < |c.consts| && c.consts[i].Nested? ==>
              r.consts[i].Nested? && r.consts[i].unit.filename == newFilename
    decreases c
  {
    c.(consts := seq(|c.consts|, i requires 0 <= i < |c.consts| => RecodeConst(c.consts[i], newFilename)),
       filename := newFilename)
  }

  /** One iteration of the constants loop: recurse into code, copy the rest. */
  function RecodeConst(k: Const, newFilename: string): (r: Const)
    ensures r.Nested? <==> k.Nested?
    ensures k.Prim? ==> r == k
    ensures k.Nested? ==> r.unit.filename == newFilename
    decreases k
  {
    match k
    case Prim(_) => k
    case Nested(u) => Nested(Recode(u, newFilename))
  }

  // ---------------------------------------------------------------------------
  // What the rewrite promises
  // ---------------------------------------------------------------------------

  /** Every nested code object, at any depth, ends up with the new filename. */
  lemma {:induction false} RecodeReachesEveryUnit(c: CodeUnit, f: string)
    ensures FilenameEverywhere(Recode(c, f), f)
    decreases c
  {
    var r := Recode(c, f);
    forall i | 0 <= i < |r.consts|
      ensures ConstFilenameEverywhere(r.consts[i], f)
    {
      if c.consts[i].Nested? {
        RecodeReachesEveryUnit(c.consts[i].unit, f);
      }
    }
  }

  /** Nothing but filenames changes, at any depth. */
  lemma {:induction false} RecodePreservesShape(c: CodeUnit, f: string)
    ensures SameShape(c, Recode(c, f))
    decreases c
  {
    var r := Recode(c, f);
    forall i | 0 <= i < |c.consts|
      ensures SameConstShape(c.consts[i], r.consts[i])
    {
      if c.consts[i].Nested? {
        RecodePreservesShape(c.consts[i].unit, f);
        assert r.consts[i] == RecodeConst(c.consts[i], f) == Nested(Recode(c.consts[i].unit, f));
      }
    }
  }

  lemma {:induction false} SameShapeReflexive(c: CodeUnit)
    ensures SameShape(c, c)
    decreases c
  {
    forall i | 0 <= i < |c.consts|
      ensures SameConstShape(c.consts[i], c.consts[i])
    {
      if c.consts[i].Nested? {
        SameShapeReflexive(c.consts[i].unit);
      }
    }
  }

  lemma {:induction false} SameShapeTransitive(a: CodeUnit, b: CodeUnit, c: CodeUnit)
    requires SameShape(a, b) && SameShape(b, c)
    ensures SameShape(a, c)
    decreases a
  {
    forall i | 0 <= i < |a.consts|
      ensures SameConstShape(a.consts[i], c.consts[i])
    {
      assert SameConstShape(a.consts[i], b.consts[i]);
      assert SameConstShape(b.consts[i], c.consts[i]);
      if a.consts[i].Nested? {
        SameShapeTransitive(a.consts[i].unit, b.consts[i].unit, c.consts[i].unit);
      }
    }
  }

  /**
   * The two promises above determine the rewrite completely: any tree that
   * has the shape of `c` and the filename `f` everywhere is `Recode(c, f)`.
   */
  lemma {:induction false} RecodeCharacterized(c: CodeUnit, r: CodeUnit, f: string)
    requires SameShape(c, r) && FilenameEverywhere(r, f)
    ensures r == Recode(c, f)
    decreases c
  {
    var t := Recode(c, f);
    forall i | 0 <= i < |c.consts|
      ensures r.consts[i] == t.consts[i]
    {
      assert SameConstShape(c.consts[i], r.consts[i]);
      assert ConstFilenameEverywhere(r.consts[i], f);
      match c.consts[i]
      case Prim(_) =>
      case Nested(u) =>
        RecodeCharacterized(u, r.consts[i].unit, f);
        assert t.consts[i] == RecodeConst(c.consts[i], f) == Nested(Recode(u, f));
    }
    assert r.consts == t.consts;
  }

  /** Rewriting twice with the same filename is rewriting once. */
  lemma RecodeIdempotent(c: CodeUnit, f: string)
    ensures Recode(Recode(c, f), f) == Recode(c, f)
  {
    var once := Recode(c, f);
    var twice := Recode(once, f);
    RecodePreservesShape(c, f);
    RecodePreservesShape(once, f);
    SameShapeTransitive(c, once, twice);
    RecodeReachesEveryUnit(once, f);
    RecodeCharacterized(c, twice, f);
  }

  /** A tree that already carries `f` everywhere is left as it is. */
  lemma RecodeFixesRewritten(c: CodeUnit, f: string)
    requires FilenameEverywhere(c, f)
    ensures Recode(c, f) == c
  {
    SameShapeReflexive(c);
    RecodeCharacterized(c, c, f);
  }

  /** Trees of the same shape fit the same interpreter versions. */
  lemma {:induction false} SameShapeFitsVersion(a: CodeUnit, b: CodeUnit, major: nat)
    requires SameShape(a, b) && FitsVersion(a, major)
    ensures FitsVersion(b, major)
    decreases a
  {
    forall i | 0 <= i < |b.consts|
      ensures ConstFitsVersion(b.consts[i], major)
    {
      assert SameConstShape(a.consts[i], b.consts[i]);
      assert ConstFitsVersion(a.consts[i], major);
      if a.consts[i].Nested? {
        SameShapeFitsVersion(a.consts[i].unit, b.consts[i].unit, major);
      }
    }
  }

  /** The rewritten tree is still a code object of the same interpreter. */
  lemma RecodeFitsVersion(c: CodeUnit, f: string, major: nat)
    requires FitsVersion(c, major)
    ensures FitsVersion(Recode(c, f), major)
  {
    RecodePreservesShape(c, f);
    SameShapeFitsVersion(c, Recode(c, f), major);
  }

  // ---------------------------------------------------------------------------
  // The version-shaped constructor argument list
  // ---------------------------------------------------------------------------

  /** A positional argument of `types.CodeType(*args)`. */
  datatype Arg =
    | IntArg(n: int)
    | BytesArg(data: Bytes)
    | ConstsArg(items: seq<Const>)
    | NamesArg(idents: seq<string>)
    | StrArg(text: string)

  /** Why the code-object constructor refuses its arguments. */
  datatype ShapeError = WrongArity(given: nat) | WrongType

  /** The Python 2 argument list, in the constructor's parameter order. */
  function BaseArgs(c: CodeUnit, consts: seq<Const>, filename: string): (args: seq<Arg>)
    ensures |args| == 14
  {
    [IntArg(c.argcount), IntArg(c.nlocals), IntArg(c.stacksize), IntArg(c.flags),
     BytesArg(c.code), ConstsArg(consts), NamesArg(c.names), NamesArg(c.varnames),
     StrArg(filename), StrArg(c.name), IntArg(c.firstlineno), BytesArg(c.lnotab),
     NamesArg(c.freevars), NamesArg(c.cellvars)]
  }

  /**
   * The list `recode` passes to the constructor: the base list, with the
   * keyword-only argument count inserted at index 1 from Python 3 on.
   */
  function ConstructorArgs(c: CodeUnit, consts: seq<Const>, filename: string, major: nat): (args: seq<Arg>)
    ensures |args| == if major >= 3 then 15 else 14
    ensures major < 3 ==> args == BaseArgs(c, consts, filename)
    ensures major >= 3 ==>
              args[0] == BaseArgs(c, consts, filename)[0] &&
              args[1] == IntArg(c.kwonlyargcount) &&
              forall i :: 1 <= i < 14 ==> args[i + 1] == BaseArgs(c, consts, filename)[i]
  {
    var base := BaseArgs(c, consts, filename);
    if major >= 3 then base[..1] + [IntArg(c.kwonlyargcount)] + base[1..] else base
  }

  /**
   * The positional parameters of the code-object constructor on Python 2 and
   * on Python 3 up to 3.7: the last two (free and cell variables) are
   * optional, every other one is required, and each has a fixed kind.
   */
  function BindArgs(args: seq<Arg>, major: nat): (r: Result<CodeUnit, ShapeError>)
    ensures r.Ok? ==> (if major >= 3 then 13 else 12) <= |args| <= (if major >= 3 then 15 else 14)
    ensures r.Ok? && major < 3 ==> r.value.kwonlyargcount == 0
  {
    var extra := if major >= 3 then 1 else 0;
    if |args| < 12 + extra || |args| > 14 + extra then Err(WrongArity(|args|))
    else if major >= 3 && !args[1].IntArg? then Err(WrongType)
    else BindFields(BindFieldsOf(args, major), if major >= 3 then args[1].n else 0)
  }

  /** The arguments other than the keyword-only count. */
  function BindFieldsOf(args: seq<Arg>, major: nat): (fields: seq<Arg>)
    ensures |fields| == if major >= 3 && |args| >= 2 then |args| - 1 else |args|
  {
    if major >= 3 && |args| >= 2 then args[..1] + args[2..] else args
  }

  function BindFields(f: seq<Arg>, kwonly: int): (r: Result<CodeUnit, ShapeError>)
    requires 12 <= |f| <= 14
    ensures r.Ok? ==> r.value.kwonlyargcount == kwonly
  {
    var freevars := if |f| > 12 then f[12] else NamesArg([]);
    var cellvars := if |f| > 13 then f[13] else NamesArg([]);
    if f[0].IntArg? && f[1].IntArg? && f[2].IntArg? && f[3].IntArg? &&
       f[4].BytesArg? && f[5].ConstsArg? && f[6].NamesArg? && f[7].NamesArg? &&
       f[8].StrArg? && f[9].StrArg? && f[10].IntArg? && f[11].BytesArg? &&
       freevars.NamesArg? && cellvars.NamesArg?
    then
      Ok(CodeUnit(f[0].n, kwonly, f[1].n, f[2].n, f[3].n, f[4].data, f[5].items,
                  f[6].idents, f[7].idents, f[8].text, f[9].text, f[10].n, f[11].data,
                  freevars.idents, cellvars.idents))
    else
      Err(WrongType)
  }

  /**
   * The list `recode` builds is accepted by the constructor, and every value
   * lands in the parameter of the same name: the result is the old unit with
   * the new constants and filename.
   */
  lemma BindConstructorArgs(c: CodeUnit, consts: seq<Const>, filename: string, major: nat)
    requires major >= 3 || c.kwonlyargcount == 0
    ensures BindArgs(ConstructorArgs(c, consts, filename, major), major)
            == Ok(c.(consts := consts, filename := filename))
  {
    var args := ConstructorArgs(c, consts, filename, major);
    var fields := BaseArgs(c, consts, filename);
    assert BindFieldsOf(args, major) == fields;
    assert BindFields(fields, c.kwonlyargcount) == Ok(c.(consts := consts, filename := filename));
  }

  /**
   * `recode` as the source runs it: a loop that appends each rewritten
   * constant to `constlist`, then the version-shaped argument list and the
   * constructor call.
   */
  method RecodeUnit(c: CodeUnit, newFilename: string, major: nat) returns (r: CodeUnit)
    requires FitsVersion(c, major)
    ensures r == Recode(c, newFilename)
    decreases c
  {
    var constlist: seq<Const> := [];
    for i := 0 to |c.consts|
      invariant |constlist| == i
      invariant forall j :: 0 <= j < i ==> constlist[j] == RecodeConst(c.consts[j], newFilename)
    {
      var k := c.consts[i];
      if k.Nested? {
        assert ConstFitsVersion(k, major);
        var sub := RecodeUnit(k.unit, newFilename, major);
        constlist := constlist + [Nested(sub)];
      } else {
        constlist := constlist + [k];
      }
    }
    assert constlist == Recode(c, newFilename).consts;
    var args := ConstructorArgs(c, constlist, newFilename, major);
    BindConstructorArgs(c, constlist, newFilename, major);
    var built := BindArgs(args, major);
    r := built.value;
  }
}
