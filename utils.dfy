/**
 * The string handling of the `ext` crate's utilities: reading a module
 * specification (`Config::try_from` and the shift suffix of
 * `parse_module_name`), the glyphs of `ascii_num` and the text that
 * `print_element` writes.
 *
 * Finding and reading the module's JSON file is not modelled: it is the
 * parameter `load`, which maps a file name to the module it holds, if any.
 * A module's JSON is reduced to what `parse_module_name` touches: whether
 * it is an object, `null` or another value, and, for an object, its `gens`
 * member and its other members.
 */
module Utils {
  import opened Results
  import opened Strings

  /** The basis of the Steenrod algebra a module is resolved over. */
  datatype AlgebraType = Adem | Milnor

  /** The name of an algebra type as it is written in a specification. */
  function AlgebraTypeName(a: AlgebraType): (name: string)
    ensures name != [] && '@' !in name
  {
    match a
    case Adem => "adem"
    case Milnor => "milnor"
  }

  /** Reads an algebra type from its name; any other text is rejected. */
  function ParseAlgebraType(x: string): (r: Option<AlgebraType>)
    ensures r.Some? ==> AlgebraTypeName(r.value) == x
  {
    if x == "adem" then Some(Adem)
    else if x == "milnor" then Some(Milnor)
    else None
  }

  /** Every algebra type is read back from its name. */
  lemma ParseAlgebraTypeName(a: AlgebraType)
    ensures ParseAlgebraType(AlgebraTypeName(a)) == Some(a)
  {
  }

  /**
   * The JSON of a module: an object, with its `gens` member and its other
   * members as JSON text by key; `null`; or any other value (an array, a
   * number, a string or a boolean) as JSON text.
   */
  datatype ModuleJson =
    | JsonObject(gens: GensMember, others: map<string, string>)
    | JsonNull
    | JsonOther(text: string)

  /**
   * The `gens` member of a module object: missing, a value that is not an
   * object (as JSON text), or an object mapping generator names to degrees.
   */
  datatype GensMember = NoGens | GensValue(text: string) | GensObject(degrees: map<string, int>)

  /** A module together with the basis of the algebra acting on it. */
  datatype Config = Config(moduleSpec: ModuleJson, algebra: AlgebraType)

  /** Why reading a specification failed. */
  datatype Error =
      /** The file was not found, or does not hold valid JSON. */
    | ModuleLoadFailed(file: string)
    | UnterminatedShift
    | BadShift(text: string)
    | InvalidAlgebraType(text: string)
    | AlgebraMismatch(expected: AlgebraType)
      /** The byte slice of `Config::try_from((name, algebra))` ends inside a character: Rust panics. */
    | CutInsideCharacter
      /** `module["gens"]` on a JSON value that is neither an object nor `null`: Rust panics. */
    | IndexIntoNonObject

  // `parse_module_name`

  /** Every generator degree raised by `shift`. */
  function ShiftedGens(gens: map<string, int>, shift: int): (r: map<string, int>)
    ensures r.Keys == gens.Keys
    ensures forall g :: g in gens ==> r[g] == gens[g] + shift
  {
    map g | g in gens :: gens[g] + shift
  }

  /** Shifting by 0 changes nothing, and two shifts add up. */
  lemma ShiftedGensCompose(gens: map<string, int>, a: int, b: int)
    ensures ShiftedGens(gens, 0) == gens
    ensures ShiftedGens(ShiftedGens(gens, a), b) == ShiftedGens(gens, a + b)
  {
  }

  /**
   * The loop of `parse_module_name` over the entries of `gens`: each degree
   * is raised by `shift`, one entry at a time, in no particular order.
   */
  method ShiftGens(gens: map<string, int>, shift: int) returns (r: map<string, int>)
    ensures r.Keys == gens.Keys
    ensures forall g :: g in gens ==> r[g] == gens[g] + shift
  {
    r := gens;
    var todo := gens.Keys;
    while todo != {}
      invariant todo <= gens.Keys && r.Keys == gens.Keys
      invariant forall g :: g in todo ==> r[g] == gens[g]
      invariant forall g :: g in gens && g !in todo ==> r[g] == gens[g] + shift
      decreases |todo|
    {
      var g :| g in todo;
      r := r[g := r[g] + shift];
      todo := todo - {g};
    }
  }

  /**
   * The shift applied to a loaded module. Indexing `module["gens"]` mutably
   * turns a `null` module into an empty object, inserts a `null` `gens`
   * member where there is none, and panics on any other non-object value;
   * then only a `gens` object has its degrees raised.
   */
  function ShiftModule(m: ModuleJson, shift: int): (r: Result<ModuleJson, Error>)
    ensures m.JsonOther? <==> r == Err(IndexIntoNonObject)
    ensures m.JsonNull? ==> r == Ok(JsonObject(GensValue("null"), map[]))
    ensures m.JsonObject? ==> r.Ok? && r.value.JsonObject? && r.value.others == m.others
    ensures m.JsonObject? && m.gens.NoGens? ==> r.value.gens == GensValue("null")
    ensures m.JsonObject? && m.gens.GensValue? ==> r.value.gens == m.gens
    ensures m.JsonObject? && m.gens.GensObject? ==> r.value.gens == GensObject(ShiftedGens(m.gens.degrees, shift))
  {
    match m
    case JsonOther(_) => Err(IndexIntoNonObject)
    case JsonNull => Ok(JsonObject(GensValue("null"), map[]))
    case JsonObject(gens, others) =>
      match gens
      case NoGens => Ok(JsonObject(GensValue("null"), others))
      case GensValue(_) => Ok(m)
      case GensObject(degrees) => Ok(JsonObject(GensObject(ShiftedGens(degrees, shift)), others))
  }

  /**
   * Shifting a module leaves it unchanged by a shift of 0 exactly when it is
   * an object that already has a `gens` member; two shifts add up.
   */
  lemma ShiftModuleCompose(m: ModuleJson, a: int, b: int)
    ensures ShiftModule(m, 0) == Ok(m) <==> m.JsonObject? && !m.gens.NoGens?
    ensures ShiftModule(m, a).Ok? ==> ShiftModule(ShiftModule(m, a).value, b) == ShiftModule(m, a + b)
  {
    if m.JsonObject? && m.gens.GensObject? {
      ShiftedGensCompose(m.gens.degrees, a, b);
    }
  }

  /**
   * What `parse_module_name` returns: the file name is the text before the
   * first `[`; the module is loaded first; then, if there is a `[`, the text
   * between it and the next `[` must end in `]` and what precedes that `]`
   * must read as a 64-bit integer, by which the module is shifted.
   */
  function ModuleFromName(name: string, load: string -> Option<ModuleJson>): (r: Result<ModuleJson, Error>)
    ensures var file := Split(name, '[')[0];
      && (load(file).None? <==> r == Err(ModuleLoadFailed(file)))
      && ('[' !in name && load(file).Some? ==> r == Ok(load(file).value))
      && (r == Err(IndexIntoNonObject) ==> '[' in name && load(file).value.JsonOther?)
      && (r.Ok? && load(file).value.JsonObject? ==> r.value.JsonObject? && r.value.others == load(file).value.others)
      && (r.Ok? && load(file).value.JsonObject? && load(file).value.gens.GensObject? ==>
            r.value.gens.GensObject? && r.value.gens.degrees.Keys == load(file).value.gens.degrees.Keys)
  {
    var pieces := Split(name, '[');
    var file := pieces[0];
    match load(file)
    case None => Err(ModuleLoadFailed(file))
    case Some(loaded) =>
      if |pieces| == 1 then Ok(loaded)
      else
        var text := pieces[1];
        if !EndsWith(text, "]") then Err(UnterminatedShift)
        else
          var x := text[..|text| - 1];
          match ParseI64(x)
          case None => Err(BadShift(x))
          case Some(shift) => ShiftModule(loaded, shift)
  }

  /** `parse_module_name`, with the shift applied to the loaded module by `ShiftGens`. */
  method ParseModuleName(name: string, load: string -> Option<ModuleJson>) returns (r: Result<ModuleJson, Error>)
    ensures r == ModuleFromName(name, load)
  {
    var pieces := Split(name, '[');
    var file := pieces[0];
    var found := load(file);
    if found.None? {
      return Err(ModuleLoadFailed(file));
    }
    var loaded := found.value;
    if |pieces| > 1 {
      var text := pieces[1];
      if !EndsWith(text, "]") {
        return Err(UnterminatedShift);
      }
      var x := text[..|text| - 1];
      var shift := ParseI64(x);
      if shift.None? {
        return Err(BadShift(x));
      }
      match loaded
      case JsonOther(_) =>
        return Err(IndexIntoNonObject);
      case JsonNull =>
        loaded := JsonObject(GensValue("null"), map[]);
      case JsonObject(gens, others) =>
        if gens.NoGens? {
          loaded := JsonObject(GensValue("null"), others);
        } else if gens.GensObject? {
          var degrees := ShiftGens(gens.degrees, shift.value);
          assert degrees == ShiftedGens(gens.degrees, shift.value);
          loaded := JsonObject(GensObject(degrees), others);
        }
    }
    return Ok(loaded);
  }

  /** Splitting `a + [c] + b` where only `b` may hold further `c`s. */
  lemma SplitAround(a: string, c: char, b: string)
    requires c !in a
    ensures var r := Split(a + [c] + b, c); |r| >= 2 && r[0] == a && r[1] == Split(b, c)[0]
  {
    var s := a + [c] + b;
    var rb := Split(b, c);
    var ps := [a] + rb;
    JoinFront(ps, [c]);
    assert ps[1..] == rb;
    forall i | 0 <= i < |ps| ensures c !in ps[i] {
      if i > 0 { assert ps[i] == rb[i - 1]; }
    }
    SplitUnique(s, c, ps);
  }

  /** A name without `[` is just a file name: the module is loaded as it is. */
  lemma ModuleFromPlainName(file: string, load: string -> Option<ModuleJson>)
    requires '[' !in file
    ensures ModuleFromName(file, load)
         == if load(file).Some? then Ok(load(file).value) else Err(ModuleLoadFailed(file))
  {
    FirstPiece(file, '[');
  }

  /** A name `file[k]` loads `file` and shifts it by exactly `k`. */
  lemma ModuleFromShiftedName(file: string, k: int, load: string -> Option<ModuleJson>)
    requires '[' !in file && I64Min <= k <= I64Max
    requires load(file).Some?
    ensures ModuleFromName(file + "[" + IntToString(k) + "]", load) == ShiftModule(load(file).value, k)
  {
    var text := IntToString(k) + "]";
    ShiftedNamePieces(file, k);
    assert text[..|text| - 1] == IntToString(k);
    ParseI64OfIntToString(k);
  }

  lemma ShiftedNamePieces(file: string, k: int)
    requires '[' !in file
    ensures var r := Split(file + "[" + IntToString(k) + "]", '[');
      |r| >= 2 && r[0] == file && r[1] == IntToString(k) + "]"
  {
    var digits := IntToString(k);
    var text := digits + "]";
    assert file + "[" + digits + "]" == file + ['['] + text;
    SplitAround(file, '[', text);
    assert '[' !in text by {
      forall i | 0 <= i < |text| ensures text[i] != '[' {
        if i < |digits| { assert text[i] == digits[i]; }
      }
    }
    FirstPiece(text, '[');
  }

  /** A shift that is not closed by `]`, or is not an integer, is refused once the file is loaded. */
  lemma ModuleFromBadShift(file: string, text: string, load: string -> Option<ModuleJson>)
    requires '[' !in file && '[' !in text
    requires load(file).Some?
    ensures !EndsWith(text, "]") ==> ModuleFromName(file + "[" + text, load) == Err(UnterminatedShift)
    ensures EndsWith(text, "]") && ParseI64(text[..|text| - 1]).None?
            ==> ModuleFromName(file + "[" + text, load) == Err(BadShift(text[..|text| - 1]))
  {
    assert file + "[" + text == file + ['['] + text;
    SplitAround(file, '[', text);
    FirstPiece(text, '[');
  }

  /** A file that cannot be loaded is an error, whatever the shift. */
  lemma ModuleFromMissingFile(name: string, load: string -> Option<ModuleJson>)
    requires load(Split(name, '[')[0]).None?
    ensures ModuleFromName(name, load) == Err(ModuleLoadFailed(Split(name, '[')[0]))
    ensures Split(name, '[')[0] <= name && '[' !in Split(name, '[')[0]
  {
    FirstPiece(name, '[');
  }

  // `Config::try_from`

  /**
   * `Config::try_from(&str)`: the module name is the text before the first
   * `@`; the text between the first and the second `@`, if any, names the
   * algebra and is read before the module is loaded; without it the algebra
   * is the Milnor basis.
   */
  function ConfigFromSpec(spec: string, load: string -> Option<ModuleJson>): (r: Result<Config, Error>)
    ensures r.Ok? ==> ModuleFromName(Split(spec, '@')[0], load) == Ok(r.value.moduleSpec)
    ensures r.Ok? && '@' !in spec ==> r.value.algebra == Milnor
    ensures r.Ok? && '@' in spec ==> AlgebraTypeName(r.value.algebra) == Split(spec, '@')[1]
    ensures r.Err? && r.error.InvalidAlgebraType? ==> '@' in spec && ParseAlgebraType(r.error.text).None?
  {
    FirstPiece(spec, '@');
    var pieces := Split(spec, '@');
    var moduleName := pieces[0];
    var algebra :=
      if |pieces| == 1 then Ok(Milnor)
      else if ParseAlgebraType(pieces[1]).Some? then Ok(ParseAlgebraType(pieces[1]).value)
      else Err(InvalidAlgebraType(pieces[1]));
    if algebra.Err? then Err(algebra.error)
    else match ModuleFromName(moduleName, load)
      case Err(e) => Err(e)
      case Ok(loaded) => Ok(Config(loaded, algebra.value))
  }

  /** The configuration made of a module read from `name` and a given algebra. */
  function WithAlgebra(name: string, a: AlgebraType, load: string -> Option<ModuleJson>): (r: Result<Config, Error>)
    ensures r.Ok? ==> r.value.algebra == a
  {
    match ModuleFromName(name, load)
    case Err(e) => Err(e)
    case Ok(loaded) => Ok(Config(loaded, a))
  }

  /** A specification without `@` is a module name over the Milnor basis. */
  lemma ConfigFromSpecDefault(spec: string, load: string -> Option<ModuleJson>)
    requires '@' !in spec
    ensures ConfigFromSpec(spec, load) == WithAlgebra(spec, Milnor, load)
  {
    FirstPiece(spec, '@');
  }

  /**
   * `name@x` is the module `name` over the algebra named `x`, and an error
   * naming `x` if no algebra has that name.
   */
  lemma ConfigFromSpecWithAlgebra(name: string, x: string, load: string -> Option<ModuleJson>)
    requires '@' !in name && '@' !in x
    ensures ParseAlgebraType(x).Some? ==> ConfigFromSpec(name + "@" + x, load) == WithAlgebra(name, ParseAlgebraType(x).value, load)
    ensures ParseAlgebraType(x).None? ==> ConfigFromSpec(name + "@" + x, load) == Err(InvalidAlgebraType(x))
  {
    assert name + "@" + x == name + ['@'] + x;
    SplitAround(name, '@', x);
    FirstPiece(x, '@');
  }

  /** The second argument of `Config::try_from((name, algebra))`: an algebra type, or its name. */
  datatype AlgebraArg = Given(algebra: AlgebraType) | Named(name: string)

  function ToAlgebraType(arg: AlgebraArg): (r: Result<AlgebraType, Error>)
    ensures arg.Given? ==> r == Ok(arg.algebra)
    ensures arg.Named? && r.Ok? ==> AlgebraTypeName(r.value) == arg.name
  {
    match arg
    case Given(a) => Ok(a)
    case Named(x) => if ParseAlgebraType(x).Some? then Ok(ParseAlgebraType(x).value) else Err(InvalidAlgebraType(x))
  }

  /**
   * `Config::try_from((name, algebra))`: the algebra is converted first, then
   * the name is trimmed of the algebra's name and read as a module name.
   */
  function ConfigFromNameAndAlgebra(name: string, arg: AlgebraArg, load: string -> Option<ModuleJson>): (r: Result<Config, Error>)
    ensures r.Ok? ==> ToAlgebraType(arg) == Ok(r.value.algebra)
    ensures r.Err? && r.error.AlgebraMismatch? ==> '@' in name && !EndsWith(name, AlgebraTypeName(r.error.expected))
    ensures r == Err(CutInsideCharacter) ==> '@' in name
    ensures '@' !in name && ToAlgebraType(arg).Ok? ==> r == WithAlgebra(name, ToAlgebraType(arg).value, load)
  {
    match ToAlgebraType(arg)
    case Err(e) => Err(e)
    case Ok(a) =>
      match TrimAlgebraName(name, a)
      case Err(e) => Err(e)
      case Ok(trimmed) => WithAlgebra(trimmed, a, load)
  }

  /**
   * The module name left of `(name, algebra)`: a name holding `@` must end with
   * the algebra's name, and loses that many characters plus one.
   */
  function TrimAlgebraName(name: string, a: AlgebraType): (r: Result<string, Error>)
    ensures '@' !in name ==> r == Ok(name)
    ensures r.Err? ==> r.error == AlgebraMismatch(a) || r.error == CutInsideCharacter
    ensures r.Err? && r.error.AlgebraMismatch? ==> '@' in name && !EndsWith(name, AlgebraTypeName(a))
    ensures r == Err(CutInsideCharacter) ==> '@' in name
  {
    var suffix := AlgebraTypeName(a);
    if '@' in name then
      if EndsWith(name, suffix) then
        assert |name| > |suffix| by {
          assert '@' !in name[|name| - |suffix|..];
        }
        if !IsAscii(name[|name| - |suffix| - 1]) then Err(CutInsideCharacter)
        else Ok(name[..|name| - |suffix| - 1])
      else Err(AlgebraMismatch(a))
    else Ok(name)
  }

  /**
   * A character that takes one byte in UTF-8. Rust slices a `str` by bytes and
   * panics when the slice would end inside a character; the algebra's name is
   * ASCII, so the cut before it is on a character boundary exactly when the
   * character just before the name is ASCII.
   */
  predicate IsAscii(c: char)
  {
    c as int < 128
  }

  /** A name without `@` is used as it is. */
  lemma NameAndAlgebraPlain(name: string, a: AlgebraType, load: string -> Option<ModuleJson>)
    requires '@' !in name
    ensures ConfigFromNameAndAlgebra(name, Given(a), load) == WithAlgebra(name, a, load)
    ensures ConfigFromNameAndAlgebra(name, Named(AlgebraTypeName(a)), load) == WithAlgebra(name, a, load)
  {
  }

  /**
   * A name holding `@` and ending with one character and then the algebra's
   * name loses exactly those `|algebra| + 1` characters. The check does not
   * look at that character: it is `@` in `name@algebra`, but with the Milnor
   * basis `S_2@x_milnor` is read as the module `S_2@x` as well. When that
   * character is not ASCII the byte slice ends inside it and the source panics.
   */
  lemma NameAndAlgebraSuffix(name: string, c: char, a: AlgebraType, load: string -> Option<ModuleJson>)
    requires '@' in name + [c]
    ensures ConfigFromNameAndAlgebra(name + [c] + AlgebraTypeName(a), Given(a), load)
         == if IsAscii(c) then WithAlgebra(name, a, load) else Err(CutInsideCharacter)
  {
    var suffix := AlgebraTypeName(a);
    var full := name + [c] + suffix;
    InPrefix(name + [c], suffix, '@');
    assert full[|full| - |suffix|..] == suffix;
    assert full[..|full| - |suffix| - 1] == name;
    assert full[|full| - |suffix| - 1] == c;
    NameAndAlgebraCut(full, a, name, c, load);
  }

  lemma InPrefix(x: string, y: string, ch: char)
    requires ch in x
    ensures ch in x + y
  {
    var i :| 0 <= i < |x| && x[i] == ch;
    assert (x + y)[i] == ch;
  }

  lemma NameAndAlgebraCut(full: string, a: AlgebraType, name: string, c: char, load: string -> Option<ModuleJson>)
    requires '@' in full && EndsWith(full, AlgebraTypeName(a))
    requires |full| > |AlgebraTypeName(a)| && full[..|full| - |AlgebraTypeName(a)| - 1] == name
    requires full[|full| - |AlgebraTypeName(a)| - 1] == c
    ensures ConfigFromNameAndAlgebra(full, Given(a), load)
         == if IsAscii(c) then WithAlgebra(name, a, load) else Err(CutInsideCharacter)
  {
    assert TrimAlgebraName(full, a) == if IsAscii(c) then Ok(name) else Err(CutInsideCharacter);
    assert ToAlgebraType(Given(a)) == Ok(a);
  }

  /** A name holding `@` that does not end with the algebra's name is refused. */
  lemma NameAndAlgebraMismatch(name: string, a: AlgebraType, load: string -> Option<ModuleJson>)
    requires '@' in name && !EndsWith(name, AlgebraTypeName(a))
    ensures ConfigFromNameAndAlgebra(name, Given(a), load) == Err(AlgebraMismatch(a))
  {
  }

  /** For a module name without `@`, the two ways of naming the algebra agree. */
  lemma SpecFormsAgree(name: string, a: AlgebraType, load: string -> Option<ModuleJson>)
    requires '@' !in name
    ensures ConfigFromNameAndAlgebra(name + "@" + AlgebraTypeName(a), Given(a), load)
         == ConfigFromSpec(name + "@" + AlgebraTypeName(a), load)
  {
    assert '@' in name + ['@'] by { assert (name + ['@'])[|name|] == '@'; }
    assert name + "@" + AlgebraTypeName(a) == name + ['@'] + AlgebraTypeName(a);
    NameAndAlgebraSuffix(name, '@', a, load);
    ConfigFromSpecWithAlgebra(name, AlgebraTypeName(a), load);
    ParseAlgebraTypeName(a);
  }

  // Terminal rendering

  /** `ascii_num`: the glyph showing how many generators a bidegree has. */
  function AsciiNum(n: nat): (c: char)
    ensures c == ' ' <==> n == 0
    ensures c == '*' <==> n >= 10
  {
    match n
    case 0 => ' '
    case 1 => '·'
    case 2 => ':'
    case 3 => '∴'
    case 4 => '⁘'
    case 5 => '⁙'
    case 6 => '⠿'
    case 7 => '⡿'
    case 8 => '⣿'
    case 9 => '9'
    case _ => '*'
  }

  /** Counts below 10 have glyphs of their own. */
  lemma AsciiNumDistinct(m: nat, n: nat)
    requires m < 10 && m != n
    ensures AsciiNum(m) != AsciiNum(n)
  {
  }

  /** The name `x_(n, s, i)` of the `i`-th generator in stem `n` and filtration `s`. */
  function GeneratorName(n: int, s: nat, i: nat): string
  {
    "x_(" + IntToString(n) + ", " + NatToString(s) + ", " + NatToString(i) + ")"
  }

  /** One term of `print_element`: `v x_(n, s, i)`, without the `v ` when `v` is 1. */
  function PrintTerm(v: nat, n: int, s: nat, i: nat): string
  {
    (if v != 1 then NatToString(v) + " " else "") + GeneratorName(n, s, i)
  }

  /** The terms of the non-zero entries of `e` below `k`, in index order. */
  function PrintTerms(e: seq<nat>, n: int, s: nat, k: nat): seq<string>
    requires k <= |e|
  {
    if k == 0 then []
    else PrintTerms(e, n, s, k - 1) + if e[k - 1] != 0 then [PrintTerm(e[k - 1], n, s, k - 1)] else []
  }

  /** What `print_element` writes. */
  function PrintedElement(e: seq<nat>, n: int, s: nat): string
  {
    Join(PrintTerms(e, n, s, |e|), " + ")
  }

  /**
   * `print_element`, with what it prints collected in `out`: before every
   * non-zero entry but the first it writes ` + `, then `v ` unless `v` is 1,
   * then the generator's name.
   */
  method PrintElement(e: seq<nat>, n: int, s: nat) returns (out: string)
    ensures out == PrintedElement(e, n, s)
  {
    out := "";
    var first := true;
    var i := 0;
    while i < |e|
      invariant 0 <= i <= |e|
      invariant first <==> PrintTerms(e, n, s, i) == []
      invariant out == Join(PrintTerms(e, n, s, i), " + ")
    {
      var v := e[i];
      ghost var before := out;
      if v != 0 {
        out := WriteTerm(out, first, v, n, s, i);
        first := false;
      }
      PrintTermsStep(e, n, s, i, before);
      i := i + 1;
    }
  }

  /** The body of the loop of `print_element` for one non-zero entry `v` at index `i`. */
  method WriteTerm(out: string, first: bool, v: nat, n: int, s: nat, i: nat) returns (out': string)
    ensures out' == out + (if first then "" else " + ") + PrintTerm(v, n, s, i)
  {
    out' := out;
    if !first {
      out' := out' + " + ";
    }
    ghost var head := out';
    if v != 1 {
      out' := out' + NatToString(v) + " ";
    }
    ghost var coefficient := if v != 1 then NatToString(v) + " " else "";
    assert out' == head + coefficient;
    out' := out' + GeneratorName(n, s, i);
    AppendAssociative(head, coefficient, GeneratorName(n, s, i));
  }

  lemma AppendAssociative(a: string, b: string, c: string)
    ensures (a + b) + c == a + (b + c)
  {
  }

  lemma PrintTermsStep(e: seq<nat>, n: int, s: nat, i: nat, text: string)
    requires i < |e| && text == Join(PrintTerms(e, n, s, i), " + ")
    ensures e[i] == 0 ==> PrintTerms(e, n, s, i + 1) == PrintTerms(e, n, s, i)
    ensures e[i] != 0 ==> PrintTerms(e, n, s, i + 1) != []
    ensures e[i] != 0 && PrintTerms(e, n, s, i) == [] ==> Join(PrintTerms(e, n, s, i + 1), " + ") == PrintTerm(e[i], n, s, i)
    ensures e[i] != 0 && PrintTerms(e, n, s, i) != []
            ==> Join(PrintTerms(e, n, s, i + 1), " + ") == text + " + " + PrintTerm(e[i], n, s, i)
  {
    if e[i] != 0 {
      var ts := PrintTerms(e, n, s, i);
      assert PrintTerms(e, n, s, i + 1) == ts + [PrintTerm(e[i], n, s, i)];
      if ts != [] {
        JoinSnoc(ts, PrintTerm(e[i], n, s, i), " + ");
      }
    }
  }

  /** Nothing is printed exactly when every entry is zero. */
  lemma {:induction false} PrintedElementEmpty(e: seq<nat>, n: int, s: nat)
    ensures PrintedElement(e, n, s) == "" <==> forall i :: 0 <= i < |e| ==> e[i] == 0
  {
    var ts := PrintTerms(e, n, s, |e|);
    PrintTermsNonEmpty(e, n, s, |e|);
    JoinEmpty(ts, " + ");
  }

  lemma {:induction false} PrintTermsNonEmpty(e: seq<nat>, n: int, s: nat, k: nat)
    requires k <= |e|
    ensures forall j :: 0 <= j < |PrintTerms(e, n, s, k)| ==> PrintTerms(e, n, s, k)[j] != []
    ensures PrintTerms(e, n, s, k) == [] <==> forall i :: 0 <= i < k ==> e[i] == 0
  {
    if k > 0 {
      PrintTermsNonEmpty(e, n, s, k - 1);
    }
  }

  /** The example of the documentation: `[0, 2, 1]` prints as `2 x_(n, s, 1) + x_(n, s, 2)`. */
  lemma PrintedElementExample(n: int, s: nat)
    ensures PrintedElement([0, 2, 1], n, s) == "2 " + GeneratorName(n, s, 1) + " + " + GeneratorName(n, s, 2)
  {
    var e: seq<nat> := [0, 2, 1];
    assert NatToString(2) == "2";
    var t1 := "2 " + GeneratorName(n, s, 1);
    var t2 := GeneratorName(n, s, 2);
    assert PrintTerm(2, n, s, 1) == t1;
    assert PrintTerm(1, n, s, 2) == t2;
    assert PrintTerms(e, n, s, 1) == [];
    assert PrintTerms(e, n, s, 2) == [t1];
    assert PrintTerms(e, n, s, 3) == [t1, t2];
    assert Join([t1, t2], " + ") == t1 + " + " + t2 by {
      assert [t1, t2][..1] == [t1];
    }
  }
}
