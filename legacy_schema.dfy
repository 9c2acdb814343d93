/** The earlier schema emitter, `Schema`: a fixed table of builtin types, struct definitions
    built with `allOf` over a reference to the base, union definitions as `anyOf`, and a
    document whose prototype definitions flatten the inheritance chain, base first, and list
    the required names sorted. */
module LegacySchema {
  import opened Wrappers
  import opened Dicts
  import opened Json
  import opened Strings
  import opened Sequences
  import Compiler
  import StructMerge
  import SchemaMaker
  import BaseChains

  datatype Property = Property(name: string, typ: Json, required: bool)

  datatype TypeDefinition = TypeDefinition(name: string, definition: JsonDict)

  /** A struct type: its definition is `MakeStructDefinition(base, properties)`. */
  datatype StructTypeDefinition = StructTypeDefinition(name: string, base: Option<string>, properties: seq<Property>)

  /** The types, and the prototypes each with its optional `data.raw` key. */
  datatype Schema = Schema(types: seq<TypeDefinition>, prototypes: seq<(Option<string>, StructTypeDefinition)>)

  type Fail = StructMerge.Fail

  /** `Schema.builtin_types`. */
  const BuiltinTypes: Dict<JsonDict> := [
    ("string", [("type", Str("string"))]),
    ("float", [("type", Str("number"))]),
    ("double", [("type", Str("number"))]),
    ("bool", [("type", Str("boolean"))]),
    ("uint8", [("type", Str("integer")), ("minimum", Int(0)), ("maximum", Int(255))]),
    ("uint16", [("type", Str("integer")), ("minimum", Int(0)), ("maximum", Int(65535))]),
    ("uint32", [("type", Str("integer")), ("minimum", Int(0)), ("maximum", Int(4294967295))]),
    ("uint64", [("type", Str("integer")), ("minimum", Int(0)), ("maximum", Int(18446744073709551615))]),
    ("int8", [("type", Str("integer")), ("minimum", Int(-128)), ("maximum", Int(127))]),
    ("int16", [("type", Str("integer")), ("minimum", Int(-32768)), ("maximum", Int(32767))]),
    ("int32", [("type", Str("integer")), ("minimum", Int(-2147483648)), ("maximum", Int(2147483647))]),
    ("int64", [("type", Str("integer")), ("minimum", Int(-9223372036854775808)), ("maximum", Int(9223372036854775807))])
  ]

  /** The table and the later compiler's `visit_builtin` agree on every name: the same
      fragment for each builtin, and nothing for any other name. */
  lemma BuiltinTypesAgree(name: string)
    ensures Get(BuiltinTypes, name) == if Compiler.VisitBuiltin(name).Ok? then Some(Compiler.VisitBuiltin(name).value) else None
  {
    var t := BuiltinTypes;
    BuiltinEntriesAgree();
    if Compiler.VisitBuiltin(name).Ok? {
      var j := BuiltinListed(name);
      KeysIndex(t, j);
      GetKeys(t, name);
    }
    if Get(t, name).Some? {
      var i := GetEntry(t, name);
    }
  }

  /** Each entry of the table is what `visit_builtin` gives for its name. */
  lemma BuiltinEntriesAgree()
    ensures forall i :: 0 <= i < |BuiltinTypes| ==> Compiler.VisitBuiltin(BuiltinTypes[i].0) == Ok(BuiltinTypes[i].1)
  {
  }

  /** Every builtin name has an entry in the table. */
  lemma BuiltinListed(name: string) returns (j: nat)
    requires name in Compiler.BuiltinNames
    ensures j < |BuiltinTypes| && BuiltinTypes[j].0 == name
  {
    var t := BuiltinTypes;
    assert t[0].0 == "string" && t[1].0 == "float" && t[2].0 == "double" && t[3].0 == "bool";
    assert t[4].0 == "uint8" && t[5].0 == "uint16" && t[6].0 == "uint32" && t[7].0 == "uint64";
    assert t[8].0 == "int8" && t[9].0 == "int16" && t[10].0 == "int32" && t[11].0 == "int64";
    j :| 0 <= j < |t| && t[j].0 == name;
  }

  function DefinitionRef(name: string): string
  {
    "#/definitions/" + name
  }

  function RefTo(name: string): Json
  {
    Obj([("$ref", Str(DefinitionRef(name)))])
  }

  // ---------------------------------------------------------------------------------------
  // Struct and union definitions

  /** The `(name, type)` pairs of `{p.name: p.type for p in properties}`. */
  function NameTypes(ps: seq<Property>): (r: Dict<Json>)
    ensures |r| == |ps| && forall i :: 0 <= i < |ps| ==> r[i] == (ps[i].name, ps[i].typ)
  {
    if ps == [] then [] else [(ps[0].name, ps[0].typ)] + NameTypes(ps[1..])
  }

  /** The `(name, required)` pairs of `{p.name: p.required for p in properties}`. */
  function NameFlags(ps: seq<Property>): (r: Dict<bool>)
    ensures |r| == |ps| && forall i :: 0 <= i < |ps| ==> r[i] == (ps[i].name, ps[i].required)
  {
    if ps == [] then [] else [(ps[0].name, ps[0].required)] + NameFlags(ps[1..])
  }

  /** `[p.name for p in properties if p.required]`, in declaration order. */
  function RequiredList(ps: seq<Property>): (r: seq<string>)
    ensures forall x :: x in r <==> exists i :: 0 <= i < |ps| && ps[i].required && ps[i].name == x
  {
    if ps == [] then []
    else
      var rest := RequiredList(ps[1..]);
      assert forall i :: 1 <= i < |ps| ==> ps[1..][i - 1] == ps[i];
      if ps[0].required then [ps[0].name] + rest else rest
  }

  /** The required names keep declaration order: the list for more properties extends the
      list for fewer by the new property's name when it is required. */
  lemma {:induction false} RequiredListAppend(ps: seq<Property>, qs: seq<Property>)
    ensures RequiredList(ps + qs) == RequiredList(ps) + RequiredList(qs)
    decreases |ps|
  {
    if ps == [] {
      assert ps + qs == qs;
    } else {
      assert (ps + qs)[1..] == ps[1..] + qs;
      RequiredListAppend(ps[1..], qs);
    }
  }

  /** Some property is required exactly when the list of required names is not empty. */
  lemma RequiredListEmpty(ps: seq<Property>)
    ensures RequiredList(ps) != [] <==> exists i :: 0 <= i < |ps| && ps[i].required
  {
    if RequiredList(ps) != [] {
      assert RequiredList(ps)[0] in RequiredList(ps);
    }
    if exists i :: 0 <= i < |ps| && ps[i].required {
      var i :| 0 <= i < |ps| && ps[i].required;
      assert ps[i].name in RequiredList(ps);
    }
  }

  /** The struct's own part: an object with its properties, and `required` only when some
      property is required. */
  function SelfDefinition(ps: seq<Property>): (d: JsonDict)
    ensures Get(d, "type") == Some(Str("object"))
    ensures Get(d, "properties") == Some(Obj(Merge([], NameTypes(ps))))
    ensures Get(d, "required") == if exists i :: 0 <= i < |ps| && ps[i].required then Some(Arr(Strs(RequiredList(ps)))) else None
    ensures Get(d, "allOf") == None
  {
    var required := RequiredList(ps);
    var head: JsonDict := [("type", Str("object")), ("properties", Obj(Merge([], NameTypes(ps))))];
    var tail: JsonDict := if required != [] then [("required", Arr(Strs(required)))] else [];
    RequiredListEmpty(ps);
    assert "type"[0] != "properties"[0] && "type"[0] != "required"[0] && "properties"[0] != "required"[0];
    assert "type"[0] != "allOf"[0] && "properties"[0] != "allOf"[0] && "required"[0] != "allOf"[0];
    assert head[1..][1..] == [] && head[1..] == [("properties", Obj(Merge([], NameTypes(ps))))];
    assert tail != [] ==> tail[1..] == [];
    MergeGet(head, tail, "type");
    MergeGet(head, tail, "properties");
    MergeGet(head, tail, "required");
    MergeGet(head, tail, "allOf");
    Merge(head, tail)
  }

  /** `StructTypeDefinition.__make_definition`: without a base, the struct's own part (or a
      bare object when it has no properties); with one, `allOf` a reference to the base and,
      when there are properties, the struct's own part. */
  function MakeStructDefinition(base: Option<string>, ps: seq<Property>): (d: JsonDict)
    ensures Get(d, "allOf").Some? <==> base.Some?
    ensures base.None? ==> Get(d, "type") == Some(Str("object")) && (Get(d, "properties").Some? <==> ps != [])
    ensures base.None? && ps != [] ==> d == SelfDefinition(ps)
    ensures base.None? && ps == [] ==> d == [("type", Str("object"))]
    ensures base.Some? ==> && Get(d, "allOf").value.Arr?
                           && var all := Get(d, "allOf").value.items;
                              && |all| == (if ps == [] then 1 else 2)
                              && all[0] == RefTo(base.value)
                              && (ps != [] ==> all[1] == Obj(SelfDefinition(ps)))
  {
    assert "type"[0] != "allOf"[0] && "type"[0] != "properties"[0];
    if base.None? then
      if |ps| > 0 then SelfDefinition(ps) else [("type", Str("object"))]
    else
      if |ps| == 0 then [("allOf", Arr([RefTo(base.value)]))]
      else [("allOf", Arr([RefTo(base.value), Obj(SelfDefinition(ps))]))]
  }

  function StructDefinitionOf(s: StructTypeDefinition): JsonDict
  {
    MakeStructDefinition(s.base, s.properties)
  }

  /** `Schema.UnionTypeDefinition`: a definition that is `anyOf` the members and nothing
      else. */
  function UnionTypeDefinition(name: string, types: seq<Json>): (r: TypeDefinition)
    ensures r.name == name && Keys(r.definition) == ["anyOf"] && Get(r.definition, "anyOf") == Some(Arr(types))
  {
    TypeDefinition(name, [("anyOf", Arr(types))])
  }

  // ---------------------------------------------------------------------------------------
  // Prototype definitions

  /** `rec`'s result placed before what is already gathered. */
  function After(r: Result<seq<StructTypeDefinition>, Fail>, c: seq<StructTypeDefinition>): Result<seq<StructTypeDefinition>, Fail>
  {
    if r.Err? then r else Ok(r.value + c)
  }

  function KeyError(name: string): string
  {
    "KeyError: " + name
  }

  /** The prototypes `rec` visits for `name`, base first and ending with `name`'s own; a
      missing name raises `KeyError`, and a chain longer than `fuel` is the source's
      `RecursionError`. */
  function Lineage(byName: Dict<StructTypeDefinition>, name: string, fuel: nat): (r: Result<seq<StructTypeDefinition>, Fail>)
    ensures r.Ok? ==> && |r.value| >= 1
                      && Get(byName, name) == Some(r.value[|r.value| - 1])
                      && r.value[0].base.None?
                      && forall i :: 0 < i < |r.value| ==> r.value[i].base.Some? && Get(byName, r.value[i].base.value) == Some(r.value[i - 1])
    decreases fuel
  {
    if Get(byName, name).None? then Err(StructMerge.Crash(KeyError(name)))
    else
      var p := Get(byName, name).value;
      if p.base.None? then Ok([p])
      else if fuel == 0 then Err(StructMerge.Crash(Compiler.RecursionError))
      else
        var below := Lineage(byName, p.base.value, fuel - 1);
        if below.Err? then below
        else
          assert forall i :: 0 <= i < |below.value| ==> (below.value + [p])[i] == below.value[i];
          Ok(below.value + [p])
  }

  /** A walk down base links: each name is a prototype whose base is the next name. */
  ghost predicate IsBaseWalk(byName: Dict<StructTypeDefinition>, p: seq<string>)
  {
    |p| >= 1 && forall i :: 0 <= i < |p| - 1 ==> Get(byName, p[i]).Some? && Get(byName, p[i]).value.base == Some(p[i + 1])
  }

  /** No walk down base links comes back to the prototype it started from. */
  ghost predicate BaseLinksAcyclic(byName: Dict<StructTypeDefinition>)
  {
    forall p :: IsBaseWalk(byName, p) && |p| >= 2 ==> p[0] != p[|p| - 1]
  }

  /** A recursion error in `rec` comes with a walk of `fuel + 1` prototypes. */
  lemma {:induction false} LineageDeepest(byName: Dict<StructTypeDefinition>, name: string, fuel: nat) returns (p: seq<string>)
    requires Lineage(byName, name, fuel) == Err(StructMerge.Crash(Compiler.RecursionError))
    ensures |p| == fuel + 1 && IsBaseWalk(byName, p) && p[0] == name
    ensures forall i :: 0 <= i < |p| ==> Get(byName, p[i]).Some?
    decreases fuel
  {
    if Get(byName, name).None? {
      BaseChains.KeyErrorIsNotRecursion(name);
      assert false;
    } else if fuel == 0 {
      p := [name];
    } else {
      var q := LineageDeepest(byName, Get(byName, name).value.base.value, fuel - 1);
      p := [name] + q;
      forall i | 0 < i < |p|
        ensures p[i] == q[i - 1]
      {
      }
    }
  }

  /** On base links without a loop, a walk names each prototype at most once. */
  lemma BaseWalkDistinct(byName: Dict<StructTypeDefinition>, p: seq<string>)
    requires BaseLinksAcyclic(byName) && IsBaseWalk(byName, p)
    ensures forall i, j :: 0 <= i < j < |p| ==> p[i] != p[j]
  {
    forall i, j | 0 <= i < j < |p|
      ensures p[i] != p[j]
    {
      var q := p[i..j + 1];
      forall k | 0 <= k < |q| - 1
        ensures Get(byName, q[k]).Some? && Get(byName, q[k]).value.base == Some(q[k + 1])
      {
        assert q[k] == p[i + k] && q[k + 1] == p[i + k + 1];
      }
      assert IsBaseWalk(byName, q);
      assert q[0] == p[i] && q[|q| - 1] == p[j];
    }
  }

  /** `rec` never reaches the recursion limit when base links do not loop and the fuel is at
      least the number of prototypes. */
  lemma LineageNoRecursion(byName: Dict<StructTypeDefinition>, name: string, fuel: nat)
    requires BaseLinksAcyclic(byName) && fuel >= |byName|
    ensures Lineage(byName, name, fuel) != Err(StructMerge.Crash(Compiler.RecursionError))
  {
    if Lineage(byName, name, fuel) == Err(StructMerge.Crash(Compiler.RecursionError)) {
      var p := LineageDeepest(byName, name, fuel);
      BaseWalkDistinct(byName, p);
      forall i | 0 <= i < |p|
        ensures p[i] in Elems(Keys(byName))
      {
        GetKeys(byName, p[i]);
      }
      DistinctWithin(p, Elems(Keys(byName)));
      ElemsBound(Keys(byName));
      assert false;
    }
  }

  /** Every property of a chain, base first. */
  function Flat(chain: seq<StructTypeDefinition>): seq<Property>
  {
    if chain == [] then [] else Flat(chain[..|chain| - 1]) + chain[|chain| - 1].properties
  }

  /** The `properties` and `required` dictionaries after `rec` has updated them with each
      level of the chain in turn. */
  function Accumulate(chain: seq<StructTypeDefinition>): (JsonDict, Dict<bool>)
  {
    if chain == [] then ([], [])
    else
      var (properties, required) := Accumulate(chain[..|chain| - 1]);
      var level := chain[|chain| - 1].properties;
      (Merge(properties, Merge([], NameTypes(level))), Merge(required, Merge([], NameFlags(level))))
  }

  /** `any(required.values())`. */
  function AnyTrue(d: Dict<bool>): bool
  {
    d != [] && (d[0].1 || AnyTrue(d[1..]))
  }

  /** `[k for k, v in required.items() if v]`. */
  function TrueKeys(d: Dict<bool>): (r: seq<string>)
    ensures forall x :: x in r <==> exists i :: 0 <= i < |d| && d[i] == (x, true)
    ensures r != [] <==> AnyTrue(d)
  {
    if d == [] then []
    else
      var rest := TrueKeys(d[1..]);
      assert forall i :: 1 <= i < |d| ==> d[1..][i - 1] == d[i];
      if d[0].1 then [d[0].0] + rest else rest
  }

  /** The definition `make_prototype_definition` returns for the accumulated dictionaries. */
  function PrototypeDocument(name: string, properties: JsonDict, required: Dict<bool>): JsonDict
  {
    var definition := [("description", Str(SchemaMaker.TypeUrl(name))), ("properties", Obj(properties))];
    if AnyTrue(required) then definition + [("required", Arr(Strs(SortStrings(TrueKeys(required)))))]
    else definition
  }

  /** `make_prototype_definition(name)`. */
  function PrototypeDefinition(byName: Dict<StructTypeDefinition>, name: string, fuel: nat): Result<JsonDict, Fail>
  {
    match Lineage(byName, name, fuel)
    case Err(e) => Err(e)
    case Ok(chain) => Ok(PrototypeDocument(name, Accumulate(chain).0, Accumulate(chain).1))
  }

  lemma LineageStep(byName: Dict<StructTypeDefinition>, name: string, current: string, fuel: nat, left: nat, chain: seq<StructTypeDefinition>)
    requires Lineage(byName, name, fuel) == After(Lineage(byName, current, left), chain)
    requires Get(byName, current).Some? && Get(byName, current).value.base.Some? && left > 0
    ensures Lineage(byName, name, fuel) ==
            After(Lineage(byName, Get(byName, current).value.base.value, left - 1), [Get(byName, current).value] + chain)
  {
    var p := Get(byName, current).value;
    var below := Lineage(byName, p.base.value, left - 1);
    if below.Ok? {
      assert below.value + [p] + chain == below.value + ([p] + chain);
    }
  }

  /** `make_prototype_definition`: `rec` climbs to the root, then each level, base first,
      updates the two dictionaries. */
  method MakePrototypeDefinition(byName: Dict<StructTypeDefinition>, name: string, fuel: nat) returns (r: Result<JsonDict, Fail>)
    ensures r == PrototypeDefinition(byName, name, fuel)
  {
    var chain: seq<StructTypeDefinition> := [];
    var current := name;
    var left := fuel;
    assert Lineage(byName, name, fuel).Ok? ==> Lineage(byName, name, fuel).value + [] == Lineage(byName, name, fuel).value;
    while true
      invariant Lineage(byName, name, fuel) == After(Lineage(byName, current, left), chain)
      decreases left
    {
      var p := Get(byName, current);
      if p.None? {
        return Err(StructMerge.Crash(KeyError(current)));
      }
      if p.value.base.None? {
        chain := [p.value] + chain;
        break;
      }
      if left == 0 {
        return Err(StructMerge.Crash(Compiler.RecursionError));
      }
      LineageStep(byName, name, current, fuel, left, chain);
      chain := [p.value] + chain;
      current := p.value.base.value;
      left := left - 1;
    }
    var properties: JsonDict := [];
    var required: Dict<bool> := [];
    var i := 0;
    while i < |chain|
      invariant 0 <= i <= |chain|
      invariant (properties, required) == Accumulate(chain[..i])
    {
      PrefixGrow(chain, i);
      properties := Merge(properties, Merge([], NameTypes(chain[i].properties)));
      required := Merge(required, Merge([], NameFlags(chain[i].properties)));
      i := i + 1;
    }
    Whole(chain);
    var definition: JsonDict := [("description", Str(SchemaMaker.TypeUrl(name))), ("properties", Obj(properties))];
    if AnyTrue(required) {
      definition := definition + [("required", Arr(Strs(SortStrings(TrueKeys(required)))))];
    }
    r := Ok(definition);
  }

  lemma NameTypesAppend(a: seq<Property>, b: seq<Property>)
    ensures NameTypes(a + b) == NameTypes(a) + NameTypes(b)
  {
    var l, r := NameTypes(a + b), NameTypes(a) + NameTypes(b);
    forall i | 0 <= i < |a + b|
      ensures l[i] == r[i]
    {
      if i < |a| {
        assert (a + b)[i] == a[i];
      } else {
        assert (a + b)[i] == b[i - |a|];
      }
    }
    assert l == r;
  }

  lemma NameFlagsAppend(a: seq<Property>, b: seq<Property>)
    ensures NameFlags(a + b) == NameFlags(a) + NameFlags(b)
  {
    var l, r := NameFlags(a + b), NameFlags(a) + NameFlags(b);
    forall i | 0 <= i < |a + b|
      ensures l[i] == r[i]
    {
      if i < |a| {
        assert (a + b)[i] == a[i];
      } else {
        assert (a + b)[i] == b[i - |a|];
      }
    }
    assert l == r;
  }

  /** Level by level, a later level's property replaces an earlier one of the same name:
      each name ends with the type and the required flag of its last property along the
      chain, and each dictionary holds a name once. */
  lemma {:induction false} AccumulateGet(chain: seq<StructTypeDefinition>, k: string)
    ensures UniqueKeys(Accumulate(chain).0) && UniqueKeys(Accumulate(chain).1)
    ensures Get(Accumulate(chain).0, k) == LastValue(NameTypes(Flat(chain)), k)
    ensures Get(Accumulate(chain).1, k) == LastValue(NameFlags(Flat(chain)), k)
    decreases |chain|
  {
    if chain != [] {
      var init := chain[..|chain| - 1];
      var level := chain[|chain| - 1].properties;
      AccumulateGet(init, k);
      var (properties, required) := Accumulate(init);
      DisplayGet(NameTypes(level), k);
      DisplayGet(NameFlags(level), k);
      MergeUnique(properties, Merge([], NameTypes(level)));
      MergeUnique(required, Merge([], NameFlags(level)));
      MergeGet(properties, Merge([], NameTypes(level)), k);
      MergeGet(required, Merge([], NameFlags(level)), k);
      LastValueUnique(Merge([], NameTypes(level)), k);
      LastValueUnique(Merge([], NameFlags(level)), k);
      NameTypesAppend(Flat(init), level);
      NameFlagsAppend(Flat(init), level);
      LastValueAppend(NameTypes(Flat(init)), NameTypes(level), k);
      LastValueAppend(NameFlags(Flat(init)), NameFlags(level), k);
    }
  }

  /** With unique keys, a key is listed as required exactly when its flag is true, and at
      most once. */
  lemma {:induction false} TrueKeysUnique(d: Dict<bool>)
    requires UniqueKeys(d)
    ensures forall x :: x in TrueKeys(d) <==> Get(d, x) == Some(true)
    ensures forall i, j :: 0 <= i < j < |TrueKeys(d)| ==> TrueKeys(d)[i] != TrueKeys(d)[j]
    decreases |d|
  {
    if d != [] {
      assert UniqueKeys(d[1..]) by {
        forall i, j | 0 <= i < j < |d[1..]|
          ensures d[1..][i].0 != d[1..][j].0
        {
          assert d[1..][i] == d[i + 1] && d[1..][j] == d[j + 1];
        }
      }
      TrueKeysUnique(d[1..]);
      forall x | x in TrueKeys(d[1..])
        ensures x != d[0].0
      {
        var i := GetEntry(d[1..], x);
        assert d[1..][i] == d[i + 1];
      }
    }
  }

  /** A list without repeats, sorted, keeps no repeats. */
  lemma DistinctSorted(s: seq<string>, r: seq<string>)
    requires multiset(r) == multiset(s)
    requires forall i, j :: 0 <= i < j < |s| ==> s[i] != s[j]
    ensures forall i, j :: 0 <= i < j < |r| ==> r[i] != r[j]
  {
    forall i, j | 0 <= i < j < |r|
      ensures r[i] != r[j]
    {
      if r[i] == r[j] {
        TwiceCounted(r, i, j);
        var a, b := TwiceListed(s, r[i]);
      }
    }
  }

  /** A name at two places of a list is counted twice. */
  lemma TwiceCounted(r: seq<string>, i: nat, j: nat)
    requires i < j < |r| && r[i] == r[j]
    ensures multiset(r)[r[i]] >= 2
  {
    assert r == r[..j] + r[j..];
    assert r[..j][i] == r[i] && r[j..][0] == r[j];
    assert multiset(r) == multiset(r[..j]) + multiset(r[j..]);
  }

  /** A name counted twice is at two places of the list. */
  lemma TwiceListed(s: seq<string>, x: string) returns (a: nat, b: nat)
    requires multiset(s)[x] >= 2
    ensures a < b < |s| && s[a] == x && s[b] == x
  {
    assert x in multiset(s);
    var k :| 0 <= k < |s| && s[k] == x;
    var rest := s[..k] + s[k + 1..];
    assert s == s[..k] + [s[k]] + s[k + 1..];
    assert multiset(s) == multiset(rest) + multiset{x};
    assert x in multiset(rest);
    if x in s[..k] {
      var c :| 0 <= c < k && s[..k][c] == x;
      a, b := c, k;
    } else {
      assert x in s[k + 1..];
      var c :| 0 <= c < |s[k + 1..]| && s[k + 1..][c] == x;
      a, b := k, k + 1 + c;
    }
  }

  /** The members of a prototype's definition. */
  lemma PrototypeDocumentMembers(name: string, properties: JsonDict, required: Dict<bool>)
    ensures var d := PrototypeDocument(name, properties, required);
            && Get(d, "description") == Some(Str(SchemaMaker.TypeUrl(name)))
            && Get(d, "properties") == Some(Obj(properties))
            && Get(d, "required") == if AnyTrue(required) then Some(Arr(Strs(SortStrings(TrueKeys(required))))) else None
  {
    var definition: JsonDict := [("description", Str(SchemaMaker.TypeUrl(name))), ("properties", Obj(properties))];
    var tail: JsonDict := [("required", Arr(Strs(SortStrings(TrueKeys(required)))))];
    assert "description"[0] != "required"[0] && "properties"[0] != "required"[0] && "description"[0] != "properties"[0];
    assert definition[1..][1..] == [] && (definition + tail)[1..][1..] == tail;
    assert (definition + tail)[1..] == definition[1..] + tail;
    var d := PrototypeDocument(name, properties, required);
    assert Get(d, "required") == Get(d[1..], "required") == Get(d[1..][1..], "required");
  }

  /** The sorted required list: in order, each name once, and exactly the names whose flag
      is true; it is empty exactly when no flag is. */
  lemma SortedRequired(required: Dict<bool>)
    requires UniqueKeys(required)
    ensures AnyTrue(required) <==> exists k :: Get(required, k) == Some(true)
    ensures RequiredNames(SortStrings(TrueKeys(required)), required)
  {
    TrueKeysUnique(required);
    var names := SortStrings(TrueKeys(required));
    DistinctSorted(TrueKeys(required), names);
    forall k
      ensures k in names <==> k in TrueKeys(required)
    {
      assert k in names <==> k in multiset(names);
    }
    if AnyTrue(required) {
      var x := TrueKeys(required)[0];
      assert x in TrueKeys(required);
      assert Get(required, x) == Some(true);
    }
    if exists k :: Get(required, k) == Some(true) {
      var k :| Get(required, k) == Some(true);
      assert k in TrueKeys(required);
    }
  }

  /** The names whose flag is true, sorted and each once. */
  ghost predicate RequiredNames(names: seq<string>, flags: Dict<bool>)
  {
    && Sorted(names)
    && (forall i, j :: 0 <= i < j < |names| ==> names[i] != names[j])
    && (forall k :: k in names <==> Get(flags, k) == Some(true))
  }

  /** `required` of a definition, given each name's flag: present exactly when some flag is
      true, and then listing those names. */
  ghost predicate ListsRequired(d: JsonDict, flags: Dict<bool>)
  {
    && (Get(d, "required").Some? <==> exists k :: Get(flags, k) == Some(true))
    && (Get(d, "required").Some? ==> exists names :: Get(d, "required") == Some(Arr(Strs(names))) && RequiredNames(names, flags))
  }

  lemma PrototypeDocumentRequired(name: string, properties: JsonDict, required: Dict<bool>)
    requires UniqueKeys(required)
    ensures ListsRequired(PrototypeDocument(name, properties, required), required)
  {
    PrototypeDocumentMembers(name, properties, required);
    SortedRequired(required);
    var d := PrototypeDocument(name, properties, required);
    if AnyTrue(required) {
      var names := SortStrings(TrueKeys(required));
      assert Get(d, "required") == Some(Arr(Strs(names)));
    } else {
      assert Get(d, "required") == None;
    }
  }

  /** The definition of a prototype: its properties are, name by name, the last of that
      name along the chain, base first, so that a derived prototype overrides its bases;
      the flags gathered along the chain are likewise each name's last, and `required` lists
      the names whose flag is true. */
  lemma PrototypeDefinitionShape(byName: Dict<StructTypeDefinition>, name: string, fuel: nat)
    requires PrototypeDefinition(byName, name, fuel).Ok?
    ensures var chain := Lineage(byName, name, fuel).value;
            var d := PrototypeDefinition(byName, name, fuel).value;
            && Get(d, "description") == Some(Str(SchemaMaker.TypeUrl(name)))
            && Get(d, "properties").Some? && Get(d, "properties").value.Obj?
            && (forall k :: Get(Get(d, "properties").value.fields, k) == LastValue(NameTypes(Flat(chain)), k))
            && (forall k :: Get(Accumulate(chain).1, k) == LastValue(NameFlags(Flat(chain)), k))
            && ListsRequired(d, Accumulate(chain).1)
  {
    var chain := Lineage(byName, name, fuel).value;
    var (properties, required) := Accumulate(chain);
    PrototypeDocumentMembers(name, properties, required);
    forall k
      ensures Get(properties, k) == LastValue(NameTypes(Flat(chain)), k)
      ensures Get(required, k) == LastValue(NameFlags(Flat(chain)), k)
    {
      AccumulateGet(chain, k);
    }
    AccumulateGet(chain, name);
    PrototypeDocumentRequired(name, properties, required);
  }

  /** A property of the prototype itself wins over any of its bases' of the same name. */
  lemma OwnPropertyWins(chain: seq<StructTypeDefinition>, k: string)
    requires chain != [] && LastValue(NameTypes(chain[|chain| - 1].properties), k).Some?
    ensures LastValue(NameTypes(Flat(chain)), k) == LastValue(NameTypes(chain[|chain| - 1].properties), k)
    ensures LastValue(NameFlags(Flat(chain)), k) == LastValue(NameFlags(chain[|chain| - 1].properties), k)
  {
    var init, level := chain[..|chain| - 1], chain[|chain| - 1].properties;
    NameTypesAppend(Flat(init), level);
    NameFlagsAppend(Flat(init), level);
    LastValueAppend(NameTypes(Flat(init)), NameTypes(level), k);
    LastValueAppend(NameFlags(Flat(init)), NameFlags(level), k);
    NamesAgree(level, k);
  }

  /** A name has a type exactly when it has a flag. */
  lemma {:induction false} NamesAgree(ps: seq<Property>, k: string)
    ensures LastValue(NameTypes(ps), k).Some? <==> LastValue(NameFlags(ps), k).Some?
    decreases |ps|
  {
    if ps != [] {
      NamesAgree(ps[1..], k);
    }
  }

  // ---------------------------------------------------------------------------------------
  // The document

  /** The `(key, value)` pairs of the top-level `properties` comprehension: keyed
      prototypes only, each an object of instances of its definition. */
  function PropertyPairs(prototypes: seq<(Option<string>, StructTypeDefinition)>): (r: Dict<Json>)
    ensures forall k :: Get(r, k).Some? <==> exists i :: 0 <= i < |prototypes| && prototypes[i].0 == Some(k)
    ensures forall i :: 0 <= i < |r| ==> exists j :: 0 <= j < |prototypes| && prototypes[j].0 == Some(r[i].0)
                                            && r[i].1 == SchemaMaker.PrototypeProperty(DefinitionRef(prototypes[j].1.name))
  {
    if prototypes == [] then []
    else
      var rest := PropertyPairs(prototypes[1..]);
      assert forall i :: 1 <= i < |prototypes| ==> prototypes[1..][i - 1] == prototypes[i];
      var (key, prototype) := prototypes[0];
      if key.Some? then [(key.value, SchemaMaker.PrototypeProperty(DefinitionRef(prototype.name)))] + rest
      else rest
  }

  /** The `(name, value)` pairs of the type definitions' comprehension. */
  function TypePairs(types: seq<TypeDefinition>): (r: Dict<Json>)
    ensures |r| == |types|
    ensures forall i :: 0 <= i < |types| ==>
              r[i] == (types[i].name, Obj(Merge([("description", Str(SchemaMaker.TypeUrl(types[i].name)))], types[i].definition)))
  {
    if types == [] then []
    else [(types[0].name, Obj(Merge([("description", Str(SchemaMaker.TypeUrl(types[0].name)))], types[0].definition)))]
         + TypePairs(types[1..])
  }

  /** `prototypes_by_name`. */
  function PrototypePairs(prototypes: seq<(Option<string>, StructTypeDefinition)>): (r: Dict<StructTypeDefinition>)
    ensures |r| == |prototypes|
    ensures forall i :: 0 <= i < |prototypes| ==> r[i] == (prototypes[i].1.name, prototypes[i].1)
  {
    if prototypes == [] then [] else [(prototypes[0].1.name, prototypes[0].1)] + PrototypePairs(prototypes[1..])
  }

  /** The prototype definitions the loop of `to_json_value` assigns: keyed prototypes only;
      the first failure is raised. */
  function PrototypeDefinitions(byName: Dict<StructTypeDefinition>, prototypes: seq<(Option<string>, StructTypeDefinition)>, fuel: nat): Result<JsonDict, Fail>
    decreases |prototypes|
  {
    if prototypes == [] then Ok([])
    else
      match PrototypeDefinitions(byName, prototypes[..|prototypes| - 1], fuel)
      case Err(e) => Err(e)
      case Ok(d) =>
        var (key, prototype) := prototypes[|prototypes| - 1];
        if key.None? then Ok(d)
        else
          match PrototypeDefinition(byName, prototype.name, fuel)
          case Err(e) => Err(e)
          case Ok(definition) => Ok(Set(d, prototype.name, Obj(definition)))
  }

  /** The prototypes by name, as `to_json_value` indexes them. */
  function PrototypesByName(schema: Schema): Dict<StructTypeDefinition>
  {
    Merge([], PrototypePairs(schema.prototypes))
  }

  /** The depth at which `rec` gives up, as Python's recursion limit does: the number of
      prototype names, which no base chain without a loop goes beyond. */
  function LineageFuel(schema: Schema): nat
  {
    |PrototypesByName(schema)|
  }

  /** `to_json_value`. */
  function ToJsonValue(schema: Schema): Result<JsonDict, Fail>
  {
    var byName := PrototypesByName(schema);
    var fuel := LineageFuel(schema);
    match PrototypeDefinitions(byName, schema.prototypes, fuel)
    case Err(e) => Err(e)
    case Ok(prototypeDefinitions) =>
      var properties := Merge([], PropertyPairs(schema.prototypes));
      var typeDefinitions := Merge([], TypePairs(schema.types));
      Ok(SchemaMaker.SchemaDocument(properties, Merge(typeDefinitions, prototypeDefinitions)))
  }

  /** With base links that do not loop, the prototype definitions never fail with a
      recursion error. */
  lemma {:induction false} PrototypeDefinitionsNoRecursion(byName: Dict<StructTypeDefinition>, prototypes: seq<(Option<string>, StructTypeDefinition)>, fuel: nat)
    requires BaseLinksAcyclic(byName) && fuel >= |byName|
    ensures PrototypeDefinitions(byName, prototypes, fuel) != Err(StructMerge.Crash(Compiler.RecursionError))
    decreases |prototypes|
  {
    if prototypes != [] {
      PrototypeDefinitionsNoRecursion(byName, prototypes[..|prototypes| - 1], fuel);
      LineageNoRecursion(byName, prototypes[|prototypes| - 1].1.name, fuel);
    }
  }

  /** The fuel `to_json_value` uses is enough: on base links that do not loop it never fails
      with a recursion error. */
  lemma ToJsonValueNoRecursion(schema: Schema)
    requires BaseLinksAcyclic(PrototypesByName(schema))
    ensures ToJsonValue(schema) != Err(StructMerge.Crash(Compiler.RecursionError))
  {
    PrototypeDefinitionsNoRecursion(PrototypesByName(schema), schema.prototypes, LineageFuel(schema));
  }

  /** `to_json_value`, with its loop over the prototypes. */
  method MakeDocument(schema: Schema) returns (r: Result<JsonDict, Fail>)
    ensures r == ToJsonValue(schema)
  {
    var properties := Merge([], PropertyPairs(schema.prototypes));
    var typeDefinitions := Merge([], TypePairs(schema.types));
    var byName := Merge([], PrototypePairs(schema.prototypes));
    var fuel := |byName|;
    var prototypeDefinitions: JsonDict := [];
    var i := 0;
    while i < |schema.prototypes|
      invariant 0 <= i <= |schema.prototypes|
      invariant PrototypeDefinitions(byName, schema.prototypes[..i], fuel) == Ok(prototypeDefinitions)
    {
      PrefixGrow(schema.prototypes, i);
      var (key, prototype) := schema.prototypes[i];
      if key.Some? {
        var definition := MakePrototypeDefinition(byName, prototype.name, fuel);
        if definition.Err? {
          PrototypeDefinitionsFailed(byName, schema.prototypes, fuel, i + 1);
          return Err(definition.error);
        }
        prototypeDefinitions := Set(prototypeDefinitions, prototype.name, Obj(definition.value));
      }
      i := i + 1;
    }
    Whole(schema.prototypes);
    r := Ok(SchemaMaker.SchemaDocument(properties, Merge(typeDefinitions, prototypeDefinitions)));
  }

  /** Once a prefix of the loop fails, the whole loop fails with the same error. */
  lemma {:induction false} PrototypeDefinitionsFailed(byName: Dict<StructTypeDefinition>, prototypes: seq<(Option<string>, StructTypeDefinition)>, fuel: nat, i: nat)
    requires i <= |prototypes| && PrototypeDefinitions(byName, prototypes[..i], fuel).Err?
    ensures PrototypeDefinitions(byName, prototypes, fuel) == PrototypeDefinitions(byName, prototypes[..i], fuel)
    decreases |prototypes| - i
  {
    if i == |prototypes| {
      Whole(prototypes);
    } else {
      PrefixOfPrefix(prototypes, |prototypes| - 1, i);
      PrototypeDefinitionsFailed(byName, prototypes[..|prototypes| - 1], fuel, i);
    }
  }

  /** Some keyed prototype has this name. */
  ghost predicate KeyedName(prototypes: seq<(Option<string>, StructTypeDefinition)>, k: string)
  {
    exists i :: 0 <= i < |prototypes| && prototypes[i].0.Some? && prototypes[i].1.name == k
  }

  lemma KeyedNameSnoc(prototypes: seq<(Option<string>, StructTypeDefinition)>, k: string)
    requires prototypes != []
    ensures var init, last := prototypes[..|prototypes| - 1], prototypes[|prototypes| - 1];
            KeyedName(prototypes, k) <==> KeyedName(init, k) || (last.0.Some? && last.1.name == k)
  {
    var init := prototypes[..|prototypes| - 1];
    assert forall i :: 0 <= i < |init| ==> init[i] == prototypes[i];
    if KeyedName(prototypes, k) {
      var i :| 0 <= i < |prototypes| && prototypes[i].0.Some? && prototypes[i].1.name == k;
      if i < |init| {
        assert init[i] == prototypes[i];
      }
    }
  }

  /** The prototype definitions have a key for each keyed prototype and hold each key once. */
  lemma {:induction false} PrototypeDefinitionsKeys(byName: Dict<StructTypeDefinition>, prototypes: seq<(Option<string>, StructTypeDefinition)>, fuel: nat)
    requires PrototypeDefinitions(byName, prototypes, fuel).Ok?
    ensures UniqueKeys(PrototypeDefinitions(byName, prototypes, fuel).value)
    ensures forall k :: Get(PrototypeDefinitions(byName, prototypes, fuel).value, k).Some? <==> KeyedName(prototypes, k)
    decreases |prototypes|
  {
    if prototypes != [] {
      var init := prototypes[..|prototypes| - 1];
      PrototypeDefinitionsKeys(byName, init, fuel);
      var d := PrototypeDefinitions(byName, init, fuel).value;
      var (key, prototype) := prototypes[|prototypes| - 1];
      forall k
        ensures KeyedName(prototypes, k) <==> KeyedName(init, k) || (key.Some? && prototype.name == k)
      {
        KeyedNameSnoc(prototypes, k);
      }
      if key.Some? {
        SetUnique(d, prototype.name, Obj(PrototypeDefinition(byName, prototype.name, fuel).value));
      }
    }
  }

  /** Each keyed prototype's entry is its own definition, built down its lineage. */
  lemma {:induction false} PrototypeDefinitionsGet(byName: Dict<StructTypeDefinition>, prototypes: seq<(Option<string>, StructTypeDefinition)>, fuel: nat, k: string)
    requires PrototypeDefinitions(byName, prototypes, fuel).Ok? && KeyedName(prototypes, k)
    ensures PrototypeDefinition(byName, k, fuel).Ok?
    ensures Get(PrototypeDefinitions(byName, prototypes, fuel).value, k) == Some(Obj(PrototypeDefinition(byName, k, fuel).value))
    decreases |prototypes|
  {
    var init := prototypes[..|prototypes| - 1];
    var (key, prototype) := prototypes[|prototypes| - 1];
    KeyedNameSnoc(prototypes, k);
    if !(key.Some? && prototype.name == k) {
      PrototypeDefinitionsGet(byName, init, fuel, k);
    }
  }

  /** The document's definitions: one per type and one per keyed prototype, the prototype's
      winning where the names clash; its properties: one per key of a keyed prototype. */
  lemma ToJsonValueShape(schema: Schema)
    requires ToJsonValue(schema).Ok?
    ensures var document := ToJsonValue(schema).value;
            var byName := Merge([], PrototypePairs(schema.prototypes));
            var fuel := LineageFuel(schema);
            var prototypeDefinitions := PrototypeDefinitions(byName, schema.prototypes, fuel).value;
            && Get(document, "definitions").Some? && Get(document, "definitions").value.Obj?
            && Get(document, "properties").Some? && Get(document, "properties").value.Obj?
            && (forall k :: Get(Get(document, "definitions").value.fields, k).Some? <==>
                              || (exists i :: 0 <= i < |schema.types| && schema.types[i].name == k)
                              || KeyedName(schema.prototypes, k))
            && (forall k :: Get(prototypeDefinitions, k).Some? ==> Get(Get(document, "definitions").value.fields, k) == Get(prototypeDefinitions, k))
            && (forall k :: Get(Get(document, "properties").value.fields, k).Some? <==>
                              exists i :: 0 <= i < |schema.prototypes| && schema.prototypes[i].0 == Some(k))
  {
    var byName := Merge([], PrototypePairs(schema.prototypes));
    var fuel := LineageFuel(schema);
    var prototypeDefinitions := PrototypeDefinitions(byName, schema.prototypes, fuel).value;
    var properties := Merge([], PropertyPairs(schema.prototypes));
    var typeDefinitions := Merge([], TypePairs(schema.types));
    SchemaMaker.SchemaDocumentMembers(properties, Merge(typeDefinitions, prototypeDefinitions));
    PrototypeDefinitionsKeys(byName, schema.prototypes, fuel);
    forall k
      ensures Get(Merge(typeDefinitions, prototypeDefinitions), k).Some? <==>
                || (exists i :: 0 <= i < |schema.types| && schema.types[i].name == k)
                || KeyedName(schema.prototypes, k)
      ensures Get(prototypeDefinitions, k).Some? ==> Get(Merge(typeDefinitions, prototypeDefinitions), k) == Get(prototypeDefinitions, k)
      ensures Get(properties, k).Some? <==> exists i :: 0 <= i < |schema.prototypes| && schema.prototypes[i].0 == Some(k)
    {
      MergeGet(typeDefinitions, prototypeDefinitions, k);
      LastValueUnique(prototypeDefinitions, k);
      DisplayGet(TypePairs(schema.types), k);
      DisplayGet(PropertyPairs(schema.prototypes), k);
      TypePairsHas(schema.types, k);
    }
  }

  /** The document's definition of a keyed prototype is the definition accumulated down its
      lineage, whatever type shares its name. */
  lemma ToJsonValuePrototype(schema: Schema, k: string)
    requires ToJsonValue(schema).Ok? && KeyedName(schema.prototypes, k)
    ensures var definitions := Get(ToJsonValue(schema).value, "definitions");
            var definition := PrototypeDefinition(PrototypesByName(schema), k, LineageFuel(schema));
            && definitions.Some? && definitions.value.Obj? && definition.Ok?
            && Get(definitions.value.fields, k) == Some(Obj(definition.value))
  {
    ToJsonValueShape(schema);
    PrototypeDefinitionsGet(PrototypesByName(schema), schema.prototypes, LineageFuel(schema), k);
  }

  /** The type definitions' pairs hold a name exactly when some type has it. */
  lemma TypePairsHas(types: seq<TypeDefinition>, k: string)
    ensures LastValue(TypePairs(types), k).Some? <==> exists i :: 0 <= i < |types| && types[i].name == k
  {
    var pairs := TypePairs(types);
    GetKeys(pairs, k);
    if exists i :: 0 <= i < |types| && types[i].name == k {
      var i :| 0 <= i < |types| && types[i].name == k;
      KeysIndex(pairs, i);
    }
    if k in Keys(pairs) {
      var i :| 0 <= i < |Keys(pairs)| && Keys(pairs)[i] == k;
      KeysIndex(pairs, i);
    }
  }

}
