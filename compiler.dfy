/** `visit_type_expression` with `JsonDefinitionMaker`: the lowering of a type expression to a
    JSON Schema fragment, with the names it references. `Forbidden` is threaded as a value. */
module Compiler {
  import opened Wrappers
  import opened Dicts
  import opened Json
  import opened TypeExpressions
  import opened StructMerge
  import Patching

  /** A compilation result together with the names `make_reference` recorded while computing
      it; names recorded before a failure stay recorded, as the source's side effect does. */
  datatype Outcome<+T> = Outcome(result: Result<T, Fail>, refs: set<string>)

  /** The state of `JsonSchemaMaker` the compiler reads. */
  datatype Maker = Maker(
    typesByName: map<string, TypeExpression>,
    prototypesByName: map<string, Prototype>,
    forbidden: set<string>,
    doMakeReference: (bool, string) -> string)

  /** The reference string used when the caller supplies none. */
  function DefaultReference(deep: bool, name: string): string
  {
    "#/definitions/" + name
  }

  const RecursionError := "RecursionError: " + "maximum recursion depth exceeded"

  /** The assertion `make_reference` and `get_referable_type` make about a forbidden name. */
  const ForbiddenNotType := "assertion failed: " + "forbidden name is not a type"

  /** `make_reference`: Forbidden for a forbidden name (which must be a type name);
      otherwise the name is recorded and its reference string returned. */
  function MakeReference(m: Maker, deep: bool, name: string): (o: Outcome<string>)
    ensures o.result.Ok? <==> name !in m.forbidden
    ensures o.result.Ok? ==> o.result.value == m.doMakeReference(deep, name) && o.refs == {name}
    ensures o.result.Err? ==> o.refs == {}
                              && (o.result.error == Forbidden <==> name in m.typesByName)
  {
    if name in m.forbidden then
      if name in m.typesByName then Outcome(Err(Forbidden), {})
      else Outcome(Err(Crash(ForbiddenNotType)), {})
    else Outcome(Ok(m.doMakeReference(deep, name)), {name})
  }

  /** `get_referable_type`: Forbidden for a forbidden name; otherwise the type's definition,
      or else the prototype's definition, or a `KeyError`. */
  function GetReferableType(m: Maker, name: string): (r: Result<TypeExpression, Fail>)
    ensures name in m.forbidden ==> r.Err? && (r.error == Forbidden <==> name in m.typesByName)
    ensures name !in m.forbidden && name in m.typesByName ==> r == Ok(m.typesByName[name])
    ensures name !in m.forbidden && name !in m.typesByName && name in m.prototypesByName
            ==> r == Ok(MakeDefinition(m.prototypesByName[name]))
    ensures name !in m.forbidden && name !in m.typesByName && name !in m.prototypesByName
            ==> r.Err? && r.error.Crash?
  {
    if name in m.forbidden then
      if name in m.typesByName then Err(Forbidden)
      else Err(Crash(ForbiddenNotType))
    else if name in m.typesByName then Ok(m.typesByName[name])
    else if name in m.prototypesByName then Ok(MakeDefinition(m.prototypesByName[name]))
    else Err(Crash("KeyError: " + name))
  }

  /** The twelve builtin names. */
  const BuiltinNames: set<string> :=
    {"string", "float", "double", "bool", "uint8", "uint16", "uint32", "uint64",
     "int8", "int16", "int32", "int64"}

  function IntegerRange(lo: int, hi: int): JsonDict
  {
    [("type", Str("integer")), ("minimum", Int(lo)), ("maximum", Int(hi))]
  }

  /** `visit_builtin`: the fixed table; any other name fails the lookup. */
  function VisitBuiltin(name: string): (r: Result<JsonDict, Fail>)
    ensures r.Ok? <==> name in BuiltinNames
  {
    if name == "string" then Ok([("type", Str("string"))])
    else if name == "float" then Ok([("type", Str("number"))])
    else if name == "double" then Ok([("type", Str("number"))])
    else if name == "bool" then Ok([("type", Str("boolean"))])
    else if name == "uint8" then Ok(IntegerRange(0, 255))
    else if name == "uint16" then Ok(IntegerRange(0, 65535))
    else if name == "uint32" then Ok(IntegerRange(0, 4294967295))
    else if name == "uint64" then Ok(IntegerRange(0, 18446744073709551615))
    else if name == "int8" then Ok(IntegerRange(-128, 127))
    else if name == "int16" then Ok(IntegerRange(-32768, 32767))
    else if name == "int32" then Ok(IntegerRange(-2147483648, 2147483647))
    else if name == "int64" then Ok(IntegerRange(-9223372036854775808, 9223372036854775807))
    else Err(Crash("KeyError: " + name))
  }

  function Pow2(n: nat): nat
  {
    if n == 0 then 1 else 2 * Pow2(n - 1)
  }

  /** The name of the unsigned and the signed builtin of a width. */
  function UnsignedName(width: nat): string
    requires width == 8 || width == 16 || width == 32 || width == 64
  {
    if width == 8 then "uint8" else if width == 16 then "uint16" else if width == 32 then "uint32" else "uint64"
  }

  function SignedName(width: nat): string
    requires width == 8 || width == 16 || width == 32 || width == 64
  {
    if width == 8 then "int8" else if width == 16 then "int16" else if width == 32 then "int32" else "int64"
  }

  lemma {:induction false} Pow2Add(a: nat, b: nat)
    ensures Pow2(a + b) == Pow2(a) * Pow2(b)
    decreases a
  {
    if a > 0 {
      Pow2Add(a - 1, b);
    }
  }

  lemma Pow2Values()
    ensures Pow2(8) == 256 && Pow2(16) == 65536 && Pow2(32) == 4294967296
    ensures Pow2(64) == 18446744073709551616
    ensures Pow2(7) == 128 && Pow2(15) == 32768 && Pow2(31) == 2147483648 && Pow2(63) == 9223372036854775808
  {
    assert Pow2(4) == 16;
    Pow2Add(4, 4);
    Pow2Add(8, 8);
    Pow2Add(16, 16);
    Pow2Add(32, 32);
    assert Pow2(3) == 8;
    Pow2Add(3, 4);
    Pow2Add(7, 8);
    Pow2Add(15, 16);
    Pow2Add(31, 32);
  }

  /** Each unsigned integer builtin admits exactly the integers `0 .. 2^w - 1` of its width. */
  lemma UnsignedBuiltinBounds(width: nat)
    requires width == 8 || width == 16 || width == 32 || width == 64
    ensures VisitBuiltin(UnsignedName(width)) == Ok(IntegerRange(0, Pow2(width) - 1))
  {
    Pow2Values();
  }

  /** Each signed integer builtin admits exactly the integers `-2^(w-1) .. 2^(w-1) - 1` of its
      width. */
  lemma SignedBuiltinBounds(width: nat)
    requires width == 8 || width == 16 || width == 32 || width == 64
    ensures VisitBuiltin(SignedName(width)) == Ok(IntegerRange(-(Pow2(width - 1) as int), Pow2(width - 1) - 1))
  {
    Pow2Values();
  }

  function VisitLiteralBool(value: bool): JsonDict
  {
    [("type", Str("boolean")), ("const", Bool(value))]
  }

  function VisitLiteralString(value: string): JsonDict
  {
    [("type", Str("string")), ("const", Str(value))]
  }

  function VisitLiteralInteger(value: int): JsonDict
  {
    [("type", Str("integer")), ("const", Int(value))]
  }

  function VisitRef(ref: string): JsonDict
  {
    [("$ref", Str(ref))]
  }

  function VisitUnion(members: seq<JsonDict>): JsonDict
  {
    [("anyOf", Arr(Objs(members)))]
  }

  function VisitDictionary(keys: JsonDict, values: JsonDict): JsonDict
  {
    [("type", Str("object")), ("additionalProperties", Obj(values)), ("propertyNames", Obj(keys))]
  }

  function VisitTuple(members: seq<JsonDict>): JsonDict
  {
    [("type", Str("array")), ("items", Arr(Objs(members))), ("minItems", Int(|members|)), ("maxItems", Int(|members|))]
  }

  /** The first struct member of a union, the one a union base climbs through. */
  function FirstStruct(members: seq<TypeExpression>): (r: Option<TypeExpression>)
    ensures r.None? <==> forall i :: 0 <= i < |members| ==> !members[i].Struct?
    ensures r.Some? ==> exists i :: 0 <= i < |members| && members[i] == r.value && r.value.Struct?
                                    && forall j :: 0 <= j < i ==> !members[j].Struct?
  {
    if members == [] then None
    else if members[0].Struct? then Some(members[0])
    else
      var r := FirstStruct(members[1..]);
      if r.Some? then
        var i :| 0 <= i < |members[1..]| && members[1..][i] == r.value
                 && forall j :: 0 <= j < i ==> !members[1..][j].Struct?;
        assert members[i + 1] == r.value;
        r
      else r
  }

  /** `visit_type_expression(JsonDefinitionMaker(maker), t)`. `fuel` bounds the number of
      bases climbed along any path; running out is the source's `RecursionError`. */
  function Compile(m: Maker, fuel: nat, t: TypeExpression): (o: Outcome<JsonDict>)
    ensures o.refs !! m.forbidden
    decreases fuel, t, 2
  {
    match t
    case Builtin(name) => Outcome(VisitBuiltin(name), {})
    case LiteralBool(b) => Outcome(Ok(VisitLiteralBool(b)), {})
    case LiteralString(s) => Outcome(Ok(VisitLiteralString(s)), {})
    case LiteralInteger(i) => Outcome(Ok(VisitLiteralInteger(i)), {})
    case Ref(name) =>
      var o := MakeReference(m, true, name);
      Outcome(if o.result.Ok? then Ok(VisitRef(o.result.value)) else Err(o.result.error), o.refs)
    case Union(members) =>
      var o := CompileEach(m, fuel, members);
      Outcome(if o.result.Ok? then Ok(VisitUnion(o.result.value)) else Err(o.result.error), o.refs)
    case Array(content) =>
      var o := Compile(m, fuel, content);
      Outcome(if o.result.Ok? then Ok(Patching.ArrayToJsonDefinition(o.result.value)) else o.result, o.refs)
    case Dictionary(keys, values) =>
      var k := Compile(m, fuel, keys);
      if k.result.Err? then k
      else
        var v := Compile(m, fuel, values);
        Outcome(if v.result.Ok? then Ok(VisitDictionary(k.result.value, v.result.value)) else v.result,
                k.refs + v.refs)
    case Struct(_, _, _, _) =>
      var h := Hierarchy(m, fuel, t);
      Outcome(if h.result.Ok? then MergeStruct(h.result.value) else Err(h.result.error), h.refs)
    case Tuple(members) =>
      var o := CompileEach(m, fuel, members);
      Outcome(if o.result.Ok? then Ok(VisitTuple(o.result.value)) else Err(o.result.error), o.refs)
  }

  /** The members of a union or tuple, in order; the first failure stops. */
  function CompileEach(m: Maker, fuel: nat, ts: seq<TypeExpression>): (o: Outcome<seq<JsonDict>>)
    ensures o.result.Ok? ==> |o.result.value| == |ts|
    ensures o.refs !! m.forbidden
    decreases fuel, ts, 2
  {
    if ts == [] then Outcome(Ok([]), {})
    else
      var first := Compile(m, fuel, ts[0]);
      if first.result.Err? then Outcome(Err(first.result.error), first.refs)
      else
        var rest := CompileEach(m, fuel, ts[1..]);
        Outcome(if rest.result.Ok? then Ok([first.result.value] + rest.result.value) else Err(rest.result.error),
                first.refs + rest.refs)
  }

  /** `visit_properties`: each property's type compiled in order; a Forbidden one is left out,
      any other failure stops. */
  function VisitProperties(m: Maker, fuel: nat, ps: seq<Property>): (o: Outcome<seq<VisitedProperty>>)
    ensures o.result.Err? ==> o.result.error.Crash?
    ensures o.result.Ok? ==> |o.result.value| <= |ps|
    ensures o.refs !! m.forbidden
    decreases fuel, ps, 2
  {
    if ps == [] then Outcome(Ok([]), {})
    else
      var first := Compile(m, fuel, ps[0].typ);
      if first.result.Err? && first.result.error.Crash? then Outcome(Err(first.result.error), first.refs)
      else
        var rest := VisitProperties(m, fuel, ps[1..]);
        var kept := if first.result.Ok? then [VisitedProperty(ps[0].names, first.result.value, ps[0].required)] else [];
        Outcome(if rest.result.Ok? then Ok(kept + rest.result.value) else rest.result, first.refs + rest.refs)
  }

  /** The levels below a struct: what its base resolves to and climbs through. */
  function Below(m: Maker, fuel: nat, s: TypeExpression): (o: Outcome<seq<VisitedStruct>>)
    requires s.Struct?
    ensures o.refs !! m.forbidden
    decreases fuel, s, 0
  {
    if s.base.None? then Outcome(Ok([]), {})
    else if fuel == 0 then Outcome(Err(Crash(RecursionError)), {})
    else
      match GetReferableType(m, s.base.value)
      case Err(e) => Outcome(Err(e), {})
      case Ok(b) =>
        if b.Struct? then Hierarchy(m, fuel - 1, b)
        else if b.Union? && FirstStruct(b.members).Some? then Hierarchy(m, fuel - 1, FirstStruct(b.members).value)
        else Outcome(Ok([]), {})
  }

  /** `rec` in `visit_type_expression`: the visited hierarchy of a struct, base first and
      ending with the struct itself. */
  function Hierarchy(m: Maker, fuel: nat, s: TypeExpression): (o: Outcome<seq<VisitedStruct>>)
    requires s.Struct?
    ensures o.result.Ok? ==> |o.result.value| >= 1 && o.result.value[|o.result.value| - 1].base == s.base
    ensures o.refs !! m.forbidden
    decreases fuel, s, 1
  {
    var below := Below(m, fuel, s);
    if below.result.Err? then below
    else
      var level := VisitLevel(m, fuel, s);
      Outcome(if level.result.Ok? then Ok(below.result.value + [level.result.value]) else Err(level.result.error),
              below.refs + level.refs)
  }

  /** One level of the hierarchy: its properties, overridden properties and custom
      properties, visited in that order. */
  function VisitLevel(m: Maker, fuel: nat, s: TypeExpression): (o: Outcome<VisitedStruct>)
    requires s.Struct?
    ensures o.result.Ok? ==> o.result.value.base == s.base
    ensures o.refs !! m.forbidden
    decreases fuel, s, 0
  {
    var props := VisitProperties(m, fuel, s.properties);
    if props.result.Err? then Outcome(Err(props.result.error), props.refs)
    else
      var over := VisitProperties(m, fuel, s.overriddenProperties);
      if over.result.Err? then Outcome(Err(over.result.error), props.refs + over.refs)
      else
        var custom := if s.customProperties.None? then Outcome(Ok([]), {})
                      else Compile(m, fuel, s.customProperties.value);
        var refs := props.refs + over.refs + custom.refs;
        if custom.result.Err? then Outcome(Err(custom.result.error), refs)
        else
          Outcome(Ok(VisitedStruct(s.base, props.result.value, over.result.value,
                                   if s.customProperties.None? then None else Some(custom.result.value))),
                  refs)
  }
}
