/** `JsonSchemaMaker`: the fixed point of forbidden type names, the choice of root
    prototypes, the names each definition needs, and the final schema document holding only
    the definitions reachable from the roots. */
module SchemaMaker {
  import opened Wrappers
  import opened Dicts
  import opened Json
  import opened TypeExpressions
  import opened StructMerge
  import opened Compiler
  import opened Reachability
  import opened Sequences
  import opened BaseChains

  const SchemaUrl := "https://json-schema.org/draft/2019-09/schema"
  const Title := "Factorio Data.raw"

  function TypeUrl(name: string): string
  {
    "https://lua-api.factorio.com/stable/types/" + name + ".html"
  }

  function PrototypeUrl(name: string): string
  {
    "https://lua-api.factorio.com/stable/prototypes/" + name + ".html"
  }

  // ---------------------------------------------------------------------------------------
  // Lookups by name

  function TypeNames(types: seq<Type>): set<string>
  {
    set i | 0 <= i < |types| :: types[i].name
  }

  function PrototypeNames(prototypes: seq<Prototype>): set<string>
  {
    set i | 0 <= i < |prototypes| :: prototypes[i].name
  }

  /** `{type.name: type for type in doc.types}`, keyed by every type name. */
  function TypesByName(types: seq<Type>): (r: map<string, TypeExpression>)
    ensures r.Keys == TypeNames(types)
    decreases |types|
  {
    if types == [] then map[]
    else
      TypeNamesSnoc(types);
      TypesByName(types[..|types| - 1])[types[|types| - 1].name := types[|types| - 1].definition]
  }

  lemma TypeNamesSnoc(types: seq<Type>)
    requires types != []
    ensures TypeNames(types) == TypeNames(types[..|types| - 1]) + {types[|types| - 1].name}
  {
    var init := types[..|types| - 1];
    forall n | n in TypeNames(types)
      ensures n in TypeNames(init) + {types[|types| - 1].name}
    {
      var i :| 0 <= i < |types| && types[i].name == n;
      if i < |init| {
        assert init[i] == types[i];
      }
    }
    forall n | n in TypeNames(init)
      ensures n in TypeNames(types)
    {
      var i :| 0 <= i < |init| && init[i].name == n;
      assert types[i] == init[i];
    }
  }

  /** A later type of the same name replaces an earlier one: each name maps to the definition
      of the last type of that name. */
  lemma {:induction false} TypesByNameLastWins(types: seq<Type>, i: nat)
    requires i < |types| && forall j :: i < j < |types| ==> types[j].name != types[i].name
    ensures types[i].name in TypesByName(types) && TypesByName(types)[types[i].name] == types[i].definition
    decreases |types|
  {
    var init := types[..|types| - 1];
    if i < |init| {
      forall j | i < j < |init|
        ensures init[j].name != init[i].name
      {
        assert init[j] == types[j] && init[i] == types[i];
      }
      TypesByNameLastWins(init, i);
      assert init[i] == types[i];
    }
  }

  /** `{prototype.name: prototype for prototype in doc.prototypes}`, keyed by every prototype
      name. */
  function PrototypesByName(prototypes: seq<Prototype>): (r: map<string, Prototype>)
    ensures r.Keys == PrototypeNames(prototypes)
    decreases |prototypes|
  {
    if prototypes == [] then map[]
    else
      PrototypeNamesSnoc(prototypes);
      PrototypesByName(prototypes[..|prototypes| - 1])[prototypes[|prototypes| - 1].name := prototypes[|prototypes| - 1]]
  }

  lemma PrototypeNamesSnoc(prototypes: seq<Prototype>)
    requires prototypes != []
    ensures PrototypeNames(prototypes) == PrototypeNames(prototypes[..|prototypes| - 1]) + {prototypes[|prototypes| - 1].name}
  {
    var init := prototypes[..|prototypes| - 1];
    forall n | n in PrototypeNames(prototypes)
      ensures n in PrototypeNames(init) + {prototypes[|prototypes| - 1].name}
    {
      var i :| 0 <= i < |prototypes| && prototypes[i].name == n;
      if i < |init| {
        assert init[i] == prototypes[i];
      }
    }
    forall n | n in PrototypeNames(init)
      ensures n in PrototypeNames(prototypes)
    {
      var i :| 0 <= i < |init| && init[i].name == n;
      assert prototypes[i] == init[i];
    }
  }

  /** Each prototype name maps to the last prototype of that name. */
  lemma {:induction false} PrototypesByNameLastWins(prototypes: seq<Prototype>, i: nat)
    requires i < |prototypes| && forall j :: i < j < |prototypes| ==> prototypes[j].name != prototypes[i].name
    ensures prototypes[i].name in PrototypesByName(prototypes)
            && PrototypesByName(prototypes)[prototypes[i].name] == prototypes[i]
    decreases |prototypes|
  {
    var init := prototypes[..|prototypes| - 1];
    if i < |init| {
      forall j | i < j < |init|
        ensures init[j].name != init[i].name
      {
        assert init[j] == prototypes[j] && init[i] == prototypes[i];
      }
      PrototypesByNameLastWins(init, i);
      assert init[i] == prototypes[i];
    }
  }

  // ---------------------------------------------------------------------------------------
  // The forbidden fixed point

  /** Every type that is not forbidden compiles, Forbidden-free and without a crash. */
  predicate Settled(m: Maker, fuel: nat, types: seq<Type>)
  {
    forall k :: 0 <= k < |types| && types[k].name !in m.forbidden ==> Compile(m, fuel, types[k].definition).result.Ok?
  }

  /** A strictly larger set inside a bound leaves strictly less of the bound. */
  lemma Shrinks(u: set<string>, a: set<string>, b: set<string>, x: string)
    requires a <= b <= u && x in b && x !in a
    ensures |u - b| < |u - a|
  {
    assert u - a == (u - b) + (b - a);
    assert (u - b) !! (b - a);
    assert x in b - a;
  }

  // ---------------------------------------------------------------------------------------
  // Root prototypes

  /** `name + "Prototype"` for each name of the limit. */
  function SeedNames(limit: seq<string>): (r: set<string>)
    ensures forall n :: n in r <==> exists i :: 0 <= i < |limit| && n == limit[i] + "Prototype"
    decreases |limit|
  {
    if limit == [] then {}
    else
      var init := limit[..|limit| - 1];
      assert forall i :: 0 <= i < |init| ==> init[i] == limit[i];
      SeedNames(init) + {limit[|limit| - 1] + "Prototype"}
  }

  /** Every name of the limit names a prototype once suffixed. */
  predicate AllSeedsExist(limit: seq<string>, prototypes: seq<Prototype>)
  {
    forall i :: 0 <= i < |limit| ==> limit[i] + "Prototype" in PrototypeNames(prototypes)
  }

  /** `children_by_parent`: each base name to the names of the prototypes deriving from it. */
  function Children(prototypes: seq<Prototype>): (g: Graph)
    ensures forall parent :: Succ(g, parent) == set i | 0 <= i < |prototypes| && prototypes[i].base == Some(parent) :: prototypes[i].name
    decreases |prototypes|
  {
    if prototypes == [] then map[]
    else
      var init := prototypes[..|prototypes| - 1];
      var p := prototypes[|prototypes| - 1];
      var g := Children(init);
      assert forall i :: 0 <= i < |init| ==> init[i] == prototypes[i];
      var r := if p.base.Some? then g[p.base.value := Succ(g, p.base.value) + {p.name}] else g;
      assert forall parent :: Succ(r, parent) == set i | 0 <= i < |prototypes| && prototypes[i].base == Some(parent) :: prototypes[i].name by {
        forall parent
          ensures Succ(r, parent) == set i | 0 <= i < |prototypes| && prototypes[i].base == Some(parent) :: prototypes[i].name
        {
          var whole := set i | 0 <= i < |prototypes| && prototypes[i].base == Some(parent) :: prototypes[i].name;
          var part := set i | 0 <= i < |init| && init[i].base == Some(parent) :: init[i].name;
          assert whole == part + (if p.base == Some(parent) then {p.name} else {}) by {
            forall n | n in whole
              ensures n in part + (if p.base == Some(parent) then {p.name} else {})
            {
              var i :| 0 <= i < |prototypes| && prototypes[i].base == Some(parent) && prototypes[i].name == n;
              if i < |init| {
                assert init[i].base == Some(parent) && init[i].name == n;
              }
            }
          }
        }
      }
      r
  }

  /** The prototypes to include, as the source selects them: every prototype without a
      limit; otherwise the suffixed names of the limit, and with descendants every prototype
      reachable from them through base-to-child links. */
  ghost function Included(prototypes: seq<Prototype>, limit: Option<seq<string>>, includeDescendants: bool): set<string>
  {
    if limit.None? then PrototypeNames(prototypes)
    else if includeDescendants then Reachable(Children(prototypes), SeedNames(limit.value))
    else SeedNames(limit.value)
  }

  // ---------------------------------------------------------------------------------------
  // The names each definition needs

  /** The definitions whose needed names are gathered, in the source's order: every
      prototype's definition, then every type that is not forbidden. */
  function NeedEntries(doc: Doc, forbidden: set<string>): seq<(string, TypeExpression)>
  {
    PrototypeEntries(doc.prototypes) + TypeEntries(doc.types, forbidden)
  }

  function PrototypeEntries(prototypes: seq<Prototype>): (r: seq<(string, TypeExpression)>)
    ensures |r| == |prototypes|
    ensures forall i :: 0 <= i < |prototypes| ==> r[i] == (prototypes[i].name, MakeDefinition(prototypes[i]))
  {
    if prototypes == [] then []
    else [(prototypes[0].name, MakeDefinition(prototypes[0]))] + PrototypeEntries(prototypes[1..])
  }

  function TypeEntries(types: seq<Type>, forbidden: set<string>): (r: seq<(string, TypeExpression)>)
    ensures forall e :: e in r <==> exists i :: 0 <= i < |types| && types[i].name !in forbidden && e == (types[i].name, types[i].definition)
  {
    if types == [] then []
    else
      var rest := TypeEntries(types[1..], forbidden);
      assert forall i :: 1 <= i < |types| ==> types[1..][i - 1] == types[i];
      if types[0].name in forbidden then rest
      else [(types[0].name, types[0].definition)] + rest
  }

  /** The kept types stay in document order: the entries of two runs of types are those of
      the first followed by those of the second. */
  lemma {:induction false} TypeEntriesAppend(a: seq<Type>, b: seq<Type>, forbidden: set<string>)
    ensures TypeEntries(a + b, forbidden) == TypeEntries(a, forbidden) + TypeEntries(b, forbidden)
    decreases |a|
  {
    if a != [] {
      assert (a + b)[1..] == a[1..] + b;
      TypeEntriesAppend(a[1..], b, forbidden);
    } else {
      assert a + b == b;
    }
  }

  /** `dict(__init_references_needed_by())`: each name to the names `make_reference` recorded
      while its definition compiled; a later entry of the same name replaces an earlier one.
      A failure of any compilation is raised. */
  function NeededBy(m: Maker, fuel: nat, entries: seq<(string, TypeExpression)>): Result<Graph, Fail>
    decreases |entries|
  {
    if entries == [] then Ok(map[])
    else
      match NeededBy(m, fuel, entries[..|entries| - 1])
      case Err(e) => Err(e)
      case Ok(g) =>
        var e := entries[|entries| - 1];
        var o := Compile(m, fuel, e.1);
        if o.result.Err? then Err(o.result.error) else Ok(g[e.0 := o.refs])
  }

  /** Gathering fails exactly when some definition fails to compile; otherwise every entry has
      its names, and none of them is forbidden. */
  lemma {:induction false} NeededByShape(m: Maker, fuel: nat, entries: seq<(string, TypeExpression)>)
    ensures NeededBy(m, fuel, entries).Ok? <==> forall i :: 0 <= i < |entries| ==> Compile(m, fuel, entries[i].1).result.Ok?
    ensures NeededBy(m, fuel, entries).Ok? ==>
              var g := NeededBy(m, fuel, entries).value;
              && (forall n :: n in g <==> exists i :: 0 <= i < |entries| && entries[i].0 == n)
              && (forall n :: n in g ==> g[n] !! m.forbidden)
    decreases |entries|
  {
    if entries != [] {
      var init := entries[..|entries| - 1];
      NeededByShape(m, fuel, init);
      assert forall i :: 0 <= i < |init| ==> init[i] == entries[i];
    }
  }

  /** `j` is the last entry for `n`. */
  ghost predicate LastEntryFor<T>(entries: seq<(string, T)>, n: string, j: nat)
  {
    j < |entries| && entries[j].0 == n && forall k :: j < k < |entries| ==> entries[k].0 != n
  }

  /** Each name of the reference graph maps to the names recorded while compiling the
      definition of its last entry. */
  lemma {:induction false} NeededByLast(m: Maker, fuel: nat, entries: seq<(string, TypeExpression)>, n: string) returns (j: nat)
    requires NeededBy(m, fuel, entries).Ok? && n in NeededBy(m, fuel, entries).value
    ensures LastEntryFor(entries, n, j)
    ensures NeededBy(m, fuel, entries).value[n] == Compile(m, fuel, entries[j].1).refs
    decreases |entries|
  {
    var init := entries[..|entries| - 1];
    if entries[|entries| - 1].0 == n {
      j := |entries| - 1;
    } else {
      j := NeededByLast(m, fuel, init, n);
      assert entries[j] == init[j];
      forall k | j < k < |entries|
        ensures entries[k].0 != n
      {
        if k < |init| {
          assert entries[k] == init[k];
        }
      }
    }
  }

  // ---------------------------------------------------------------------------------------
  // The schema document

  /** One entry of a dictionary comprehension: `None` where the comprehension's condition
      leaves the element out, otherwise the key and the value, which may raise. */
  type Entry = Option<(string, Result<Json, Fail>)>

  /** A dictionary comprehension: the first failure in order is raised; otherwise the
      entries are assigned one after the other. */
  function Comprehension(entries: seq<Entry>): Result<JsonDict, Fail>
    decreases |entries|
  {
    if entries == [] then Ok([])
    else
      match Comprehension(entries[..|entries| - 1])
      case Err(e) => Err(e)
      case Ok(d) =>
        var e := entries[|entries| - 1];
        if e.None? then Ok(d)
        else if e.value.1.Err? then Err(e.value.1.error)
        else Ok(Set(d, e.value.0, e.value.1.value))
  }

  /** A comprehension succeeds exactly when every value it keeps does, and then has exactly
      the keys of the entries it keeps. */
  lemma {:induction false} ComprehensionShape(entries: seq<Entry>)
    ensures Comprehension(entries).Ok? <==> forall i :: 0 <= i < |entries| && entries[i].Some? ==> entries[i].value.1.Ok?
    ensures Comprehension(entries).Ok? ==>
              forall k :: Get(Comprehension(entries).value, k).Some? <==>
                          exists i :: 0 <= i < |entries| && entries[i].Some? && entries[i].value.0 == k
    decreases |entries|
  {
    if entries != [] {
      var init := entries[..|entries| - 1];
      ComprehensionShape(init);
      assert forall i :: 0 <= i < |init| ==> init[i] == entries[i];
    }
  }

  /** `j` is the last kept entry of key `k`. */
  ghost predicate LastKeptFor(entries: seq<Entry>, k: string, j: nat)
  {
    && j < |entries| && entries[j].Some? && entries[j].value.0 == k
    && forall i :: j < i < |entries| && entries[i].Some? ==> entries[i].value.0 != k
  }

  /** Each key of a comprehension holds the value of its last kept entry. */
  lemma {:induction false} ComprehensionLast(entries: seq<Entry>, k: string) returns (j: nat)
    requires Comprehension(entries).Ok? && Get(Comprehension(entries).value, k).Some?
    ensures LastKeptFor(entries, k, j) && entries[j].value.1.Ok?
    ensures Get(Comprehension(entries).value, k) == Some(entries[j].value.1.value)
    decreases |entries|
  {
    var init := entries[..|entries| - 1];
    var e := entries[|entries| - 1];
    if e.Some? && e.value.0 == k {
      j := |entries| - 1;
    } else {
      j := ComprehensionLast(init, k);
      assert entries[j] == init[j];
      forall i | j < i < |entries| && entries[i].Some?
        ensures entries[i].value.0 != k
      {
        if i < |init| {
          assert entries[i] == init[i];
        }
      }
    }
  }

  /** The top-level property of a keyed prototype: an object whose values are instances of
      the prototype's definition. */
  function PrototypeProperty(ref: string): Json
  {
    Obj([("type", Str("object")), ("additionalProperties", Obj([("$ref", Str(ref))]))])
  }

  /** An entry of `properties` in `to_json`: keyed, included prototypes only; the reference
      raises for a forbidden name. */
  function PropertyEntry(m: Maker, p: Prototype, included: set<string>): Entry
  {
    if p.key.Some? && p.name in included then
      var o := MakeReference(m, false, p.name);
      Some((p.key.value, if o.result.Ok? then Ok(PrototypeProperty(o.result.value)) else Err(o.result.error)))
    else None
  }

  function PropertyEntries(m: Maker, prototypes: seq<Prototype>, included: set<string>): (r: seq<Entry>)
    ensures |r| == |prototypes|
    ensures forall i :: 0 <= i < |prototypes| ==> r[i] == PropertyEntry(m, prototypes[i], included)
  {
    if prototypes == [] then []
    else [PropertyEntry(m, prototypes[0], included)] + PropertyEntries(m, prototypes[1..], included)
  }

  /** `{"description": url} | definition`: the definition's own keys win. */
  function Described(url: string, r: Result<JsonDict, Fail>): Result<Json, Fail>
  {
    if r.Ok? then Ok(Obj(Merge([("description", Str(url))], r.value))) else Err(r.error)
  }

  /** An entry of the first `definitions` comprehension: types that are not forbidden. */
  function TypeDefinitionEntry(m: Maker, fuel: nat, t: Type): Entry
  {
    if t.name !in m.forbidden then Some((t.name, Described(TypeUrl(t.name), Compile(m, fuel, t.definition).result)))
    else None
  }

  function TypeDefinitionEntries(m: Maker, fuel: nat, types: seq<Type>): (r: seq<Entry>)
    ensures |r| == |types|
    ensures forall i :: 0 <= i < |types| ==> r[i] == TypeDefinitionEntry(m, fuel, types[i])
  {
    if types == [] then [] else [TypeDefinitionEntry(m, fuel, types[0])] + TypeDefinitionEntries(m, fuel, types[1..])
  }

  /** An entry of the second `definitions` comprehension: keyed prototypes. */
  function PrototypeDefinitionEntry(m: Maker, fuel: nat, p: Prototype): Entry
  {
    if p.key.Some? then Some((p.name, Described(PrototypeUrl(p.name), Compile(m, fuel, MakeDefinition(p)).result)))
    else None
  }

  function PrototypeDefinitionEntries(m: Maker, fuel: nat, prototypes: seq<Prototype>): (r: seq<Entry>)
    ensures |r| == |prototypes|
    ensures forall i :: 0 <= i < |prototypes| ==> r[i] == PrototypeDefinitionEntry(m, fuel, prototypes[i])
  {
    if prototypes == [] then []
    else [PrototypeDefinitionEntry(m, fuel, prototypes[0])] + PrototypeDefinitionEntries(m, fuel, prototypes[1..])
  }

  /** `definitions` before filtering: the types' comprehension merged with the prototypes',
      so that a prototype wins over a type of the same name. */
  function Definitions(m: Maker, fuel: nat, doc: Doc): Result<JsonDict, Fail>
  {
    match Comprehension(TypeDefinitionEntries(m, fuel, doc.types))
    case Err(e) => Err(e)
    case Ok(a) =>
      match Comprehension(PrototypeDefinitionEntries(m, fuel, doc.prototypes))
      case Err(e) => Err(e)
      case Ok(b) => Ok(Merge(a, b))
  }

  /** The document `to_json` returns. */
  function SchemaDocument(properties: JsonDict, definitions: JsonDict): JsonDict
  {
    [("$schema", Str(SchemaUrl)), ("title", Str(Title)), ("type", Str("object")),
     ("properties", Obj(properties)), ("definitions", Obj(definitions))]
  }

  /** The document's `properties` and `definitions` members. */
  lemma SchemaDocumentMembers(properties: JsonDict, definitions: JsonDict)
    ensures Get(SchemaDocument(properties, definitions), "properties") == Some(Obj(properties))
    ensures Get(SchemaDocument(properties, definitions), "definitions") == Some(Obj(definitions))
  {
    var d := SchemaDocument(properties, definitions);
    var tail := [("properties", Obj(properties)), ("definitions", Obj(definitions))];
    assert "$schema"[0] != "properties"[0] && "$schema"[0] != "definitions"[0];
    assert "title"[0] != "properties"[0] && "title"[0] != "definitions"[0];
    assert "type"[0] != "properties"[0] && "type"[0] != "definitions"[0];
    assert "properties"[0] != "definitions"[0];
    assert d[1..][1..][1..] == tail;
    assert tail[1..] == [("definitions", Obj(definitions))];
    forall k | k == "properties" || k == "definitions"
      ensures Get(d, k) == Get(tail, k)
    {
      assert Get(d, k) == Get(d[1..], k) == Get(d[1..][1..], k) == Get(d[1..][1..][1..], k);
    }
    assert Get(tail, "definitions") == Get(tail[1..], "definitions");
  }

  /** `to_json`: the properties, then the definitions restricted to the names reachable from
      the included prototypes. */
  ghost function ToJsonSpec(m: Maker, fuel: nat, doc: Doc, included: set<string>, neededBy: Graph): Result<JsonDict, Fail>
  {
    match Comprehension(PropertyEntries(m, doc.prototypes, included))
    case Err(e) => Err(e)
    case Ok(properties) =>
      match Definitions(m, fuel, doc)
      case Err(e) => Err(e)
      case Ok(definitions) => Ok(SchemaDocument(properties, Restrict(definitions, Reachable(neededBy, included))))
  }

  // ---------------------------------------------------------------------------------------
  // The maker

  /** The maker's state after construction: the documentation indexed by name, the forbidden
      names, the prototypes to include and the names each definition needs. */
  class JsonSchemaMaker {
    const doc: Doc
    const typesByName: map<string, TypeExpression>
    const prototypesByName: map<string, Prototype>
    const doMakeReference: (bool, string) -> string
    /** The depth at which compiling gives up, as Python's recursion limit does: one more than
        the number of type and prototype names, which no base chain without a loop reaches. */
    const fuel: nat
    var forbidden: set<string>
    /** The names forbidden beyond the initial ones, in the order they were forbidden. */
    ghost var forbiddenOrder: seq<string>
    var prototypesToInclude: set<string>
    var referencesNeededBy: Graph

    /** The part of the state the compiler reads. */
    function AsMaker(): Maker
      reads this`forbidden
    {
      Maker(typesByName, prototypesByName, forbidden, doMakeReference)
    }

    /** The compiler's view of the maker when the names of `f` are forbidden. */
    function MakerWith(f: set<string>): Maker
    {
      Maker(typesByName, prototypesByName, f, doMakeReference)
    }

    /** `name` is forbidden for cause once the names of `before` are: it is a type name not in
        `before`, and a type of that name has a definition that then raises Forbidden. */
    ghost predicate ForbiddenForCause(before: set<string>, name: string)
    {
      && name !in before
      && exists i :: 0 <= i < |doc.types| && doc.types[i].name == name
                     && Compile(MakerWith(before), fuel, doc.types[i].definition).result == Err(Forbidden)
    }

    /** Each name of `order` is forbidden for cause once the initial names and the names
        before it in `order` are. */
    ghost predicate ForbiddenInOrder(initial: set<string>, order: seq<string>)
    {
      forall k :: 0 <= k < |order| ==> ForbiddenForCause(initial + Elems(order[..k]), order[k])
    }

    /** The forbidden names are the initial ones and those of the order, each for cause. */
    ghost predicate ForbiddenSoFar(initial: set<string>)
      reads this`forbidden, this`forbiddenOrder
    {
      forbidden == initial + Elems(forbiddenOrder) && ForbiddenInOrder(initial, forbiddenOrder)
    }

    /** Compiling cannot reach the recursion limit: the base chains never loop back, and the
        fuel exceeds the number of names. */
    ghost predicate ChainsFit()
    {
      BasesAcyclic(typesByName, prototypesByName) && fuel > NameCount(typesByName, prototypesByName)
    }

    /** The state `__init__` leaves: the forbidden names settled, each one forbidden for
        cause, the root prototypes chosen and the names each definition needs gathered. */
    ghost predicate Ready(forbidTypeNames: set<string>, limit: Option<seq<string>>, includeDescendants: bool)
      reads this
    {
      && forbidTypeNames <= forbidden <= forbidTypeNames + TypeNames(doc.types)
      && ForbiddenSoFar(forbidTypeNames)
      && Settled(AsMaker(), fuel, doc.types)
      && prototypesToInclude == Included(doc.prototypes, limit, includeDescendants)
      && NeededBy(AsMaker(), fuel, NeedEntries(doc, forbidden)) == Ok(referencesNeededBy)
    }

    constructor (doc: Doc, makeReference: Option<(bool, string) -> string>)
      ensures this.doc == doc
      ensures typesByName == TypesByName(doc.types) && prototypesByName == PrototypesByName(doc.prototypes)
      ensures fuel == NameCount(typesByName, prototypesByName) + 1
      ensures doMakeReference == if makeReference.Some? then makeReference.value else DefaultReference
      ensures forbidden == {} && forbiddenOrder == [] && prototypesToInclude == {} && referencesNeededBy == map[]
    {
      var f: (bool, string) -> string := if makeReference.Some? then makeReference.value else DefaultReference;
      var types := TypesByName(doc.types);
      var prototypes := PrototypesByName(doc.prototypes);
      var count := NameCount(types, prototypes);
      this.doc := doc;
      typesByName := types;
      prototypesByName := prototypes;
      doMakeReference := f;
      fuel := count + 1;
      forbidden := {};
      forbiddenOrder := [];
      prototypesToInclude := {};
      referencesNeededBy := map[];
    }

    /** One more name forbidden for cause extends the order. */
    lemma OrderGrows(initial: set<string>, order: seq<string>, name: string)
      requires ForbiddenInOrder(initial, order)
      requires ForbiddenForCause(initial + Elems(order), name)
      ensures ForbiddenInOrder(initial, order + [name])
      ensures Elems(order + [name]) == Elems(order) + {name}
    {
      var order' := order + [name];
      forall k | 0 <= k < |order'|
        ensures ForbiddenForCause(initial + Elems(order'[..k]), order'[k])
      {
        if k < |order| {
          assert order'[..k] == order[..k] && order'[k] == order[k];
        } else {
          assert order'[..k] == order;
        }
      }
    }

    /** Forbidding the `i`-th type when its definition raises Forbidden keeps every
        forbidden name justified. */
    lemma ForbidStep(initial: set<string>, i: nat)
      requires ForbiddenSoFar(initial) && i < |doc.types| && doc.types[i].name !in forbidden
      requires Compile(AsMaker(), fuel, doc.types[i].definition).result == Err(Forbidden)
      ensures forbidden + {doc.types[i].name} == initial + Elems(forbiddenOrder + [doc.types[i].name])
      ensures ForbiddenInOrder(initial, forbiddenOrder + [doc.types[i].name])
    {
      assert AsMaker() == MakerWith(forbidden);
      assert ForbiddenForCause(initial + Elems(forbiddenOrder), doc.types[i].name);
      OrderGrows(initial, forbiddenOrder, doc.types[i].name);
    }

    /** `__init_forbidden_type_names`: passes over the types, forbidding each one whose
        definition raises Forbidden, until a whole pass forbids nothing. Any other failure is
        raised. */
    method InitForbiddenTypeNames(forbidTypeNames: set<string>) returns (r: Result<(), Fail>)
      modifies this`forbidden, this`forbiddenOrder
      ensures forbidTypeNames <= forbidden <= forbidTypeNames + TypeNames(doc.types)
      ensures ForbiddenSoFar(forbidTypeNames)
      ensures r.Ok? ==> Settled(AsMaker(), fuel, doc.types)
      ensures r.Err? ==> r.error.Crash?
      ensures r.Err? && ChainsFit() ==> r.error != Crash(RecursionError)
    {
      var bound := forbidTypeNames + TypeNames(doc.types);
      forbidden := forbidTypeNames;
      forbiddenOrder := [];
      assert forbidTypeNames + Elems(forbiddenOrder) == forbidTypeNames;
      while true
        invariant forbidTypeNames <= forbidden <= bound
        invariant ForbiddenSoFar(forbidTypeNames)
        decreases |bound - forbidden|
      {
        var newly := false;
        ghost var start := forbidden;
        ghost var added := "";
        var i := 0;
        while i < |doc.types|
          invariant 0 <= i <= |doc.types|
          invariant start <= forbidden <= bound
          invariant ForbiddenSoFar(forbidTypeNames)
          invariant newly ==> added in forbidden && added !in start
          invariant !newly ==> forbidden == start
          invariant !newly ==> forall k :: 0 <= k < i && doc.types[k].name !in forbidden ==>
                                 Compile(AsMaker(), fuel, doc.types[k].definition).result.Ok?
        {
          var t := doc.types[i];
          if t.name !in forbidden {
            var o := Compile(AsMaker(), fuel, t.definition);
            if o.result.Err? {
              if o.result.error != Forbidden {
                if ChainsFit() {
                  NoRecursionError(AsMaker(), fuel, t.definition);
                }
                return Err(o.result.error);
              }
              assert t.name in TypeNames(doc.types);
              ForbidStep(forbidTypeNames, i);
              forbidden := forbidden + {t.name};
              forbiddenOrder := forbiddenOrder + [t.name];
              added := t.name;
              newly := true;
            }
          }
          i := i + 1;
        }
        if !newly {
          return Ok(());
        }
        Shrinks(bound, start, forbidden, added);
      }
    }

    /** `__init_prototypes_to_include`. Each name of the limit must name a prototype once
        suffixed (an assertion); the descendant search is bounded by `budget`. */
    method InitPrototypesToInclude(limit: Option<seq<string>>, includeDescendants: bool, budget: nat) returns (r: Result<(), Fail>)
      modifies this`prototypesToInclude
      ensures r.Ok? ==> prototypesToInclude == Included(doc.prototypes, limit, includeDescendants)
      ensures r.Err? <==> (limit.Some? && !AllSeedsExist(limit.value, doc.prototypes)) || r == Err(Crash(Diverges))
      ensures limit.None? || !includeDescendants ==> r.Ok? == (limit.None? || AllSeedsExist(limit.value, doc.prototypes))
      ensures r.Err? ==> r.error != Crash(RecursionError)
    {
      if limit.None? {
        prototypesToInclude := PrototypeNames(doc.prototypes);
        return Ok(());
      }
      var seeds := CollectSeeds(limit.value, doc.prototypes);
      if seeds.Err? {
        assert ("assertion failed: " + "Prototype " + seeds.error + " not found")[0] == 'a';
        assert RecursionError[0] == 'R';
        return Err(Crash("assertion failed: " + "Prototype " + seeds.error + " not found"));
      }
      if !includeDescendants {
        prototypesToInclude := seeds.value;
        return Ok(());
      }
      var g := ChildrenByParent(doc.prototypes);
      var found := ExploreAll(g, seeds.value, budget);
      if found.Err? {
        assert Diverges[0] == 't' && RecursionError[0] == 'R';
        return Err(Crash(found.error));
      }
      prototypesToInclude := found.value;
      r := Ok(());
    }

    /** `__init_references_needed_by`: compile each definition and keep the names it
        references. */
    method InitReferencesNeededBy() returns (r: Result<(), Fail>)
      modifies this`referencesNeededBy
      ensures var spec := NeededBy(AsMaker(), fuel, NeedEntries(doc, forbidden));
              && (r.Ok? <==> spec.Ok?)
              && (r.Ok? ==> referencesNeededBy == spec.value)
              && (r.Err? ==> r.error == spec.error)
      ensures r.Err? && ChainsFit() ==> r.error != Crash(RecursionError)
    {
      var entries := NeedEntries(doc, forbidden);
      var g: Graph := map[];
      var i := 0;
      while i < |entries|
        invariant 0 <= i <= |entries|
        invariant NeededBy(AsMaker(), fuel, entries[..i]) == Ok(g)
      {
        PrefixGrow(entries, i);
        var o := Compile(AsMaker(), fuel, entries[i].1);
        if o.result.Err? {
          NeededByFailed(AsMaker(), fuel, entries, i + 1);
          NeededByFailureStays(AsMaker(), fuel, entries, i + 1);
          if ChainsFit() {
            NoRecursionError(AsMaker(), fuel, entries[i].1);
          }
          return Err(o.result.error);
        }
        g := g[entries[i].0 := o.refs];
        i := i + 1;
      }
      Whole(entries);
      referencesNeededBy := g;
      r := Ok(());
    }

    /** `to_json`: the schema document, with a definition for every name the included
        prototypes need, directly or through other definitions. */
    method ToJson() returns (r: Result<JsonDict, Fail>)
      ensures r == ToJsonSpec(AsMaker(), fuel, doc, prototypesToInclude, referencesNeededBy)
    {
      var properties := Comprehension(PropertyEntries(AsMaker(), doc.prototypes, prototypesToInclude));
      if properties.Err? {
        return Err(properties.error);
      }
      var definitions := Definitions(AsMaker(), fuel, doc);
      if definitions.Err? {
        return Err(definitions.error);
      }
      var needed := Explore(referencesNeededBy, prototypesToInclude);
      r := Ok(SchemaDocument(properties.value, Restrict(definitions.value, needed)));
    }

    /** The whole of `__init__`: index the documentation, then settle the forbidden names,
        choose the prototypes and gather the names each definition needs; any failure is
        raised. The descendant search is bounded by `budget`. */
    static method Create(doc: Doc, makeReference: Option<(bool, string) -> string>,
                         limit: Option<seq<string>>, includeDescendants: bool,
                         forbidTypeNames: set<string>, budget: nat)
      returns (r: Result<JsonSchemaMaker, Fail>)
      ensures r.Ok? ==> && fresh(r.value) && r.value.doc == doc
                        && r.value.typesByName == TypesByName(doc.types)
                        && r.value.prototypesByName == PrototypesByName(doc.prototypes)
                        && r.value.fuel == NameCount(r.value.typesByName, r.value.prototypesByName) + 1
                        && r.value.doMakeReference == (if makeReference.Some? then makeReference.value else DefaultReference)
                        && r.value.Ready(forbidTypeNames, limit, includeDescendants)
      ensures r.Err? && BasesAcyclic(TypesByName(doc.types), PrototypesByName(doc.prototypes))
              ==> r.error != Crash(RecursionError)
    {
      var maker := new JsonSchemaMaker(doc, makeReference);
      var e := maker.InitForbiddenTypeNames(forbidTypeNames);
      if e.Err? {
        return Err(e.error);
      }
      e := maker.InitPrototypesToInclude(limit, includeDescendants, budget);
      if e.Err? {
        return Err(e.error);
      }
      e := maker.InitReferencesNeededBy();
      if e.Err? {
        return Err(e.error);
      }
      r := Ok(maker);
    }
  }

  /** The assertion loop of `__init_prototypes_to_include`: each name of the limit, suffixed,
      must name a prototype; the first that does not is reported. */
  method CollectSeeds(names: seq<string>, prototypes: seq<Prototype>) returns (r: Result<set<string>, string>)
    ensures r.Ok? <==> AllSeedsExist(names, prototypes)
    ensures r.Ok? ==> r.value == SeedNames(names)
    ensures r.Err? ==> r.error !in PrototypeNames(prototypes)
  {
    var seeds: set<string> := {};
    var i := 0;
    while i < |names|
      invariant 0 <= i <= |names|
      invariant seeds == SeedNames(names[..i])
      invariant forall k :: 0 <= k < i ==> names[k] + "Prototype" in PrototypeNames(prototypes)
    {
      var name := names[i] + "Prototype";
      if name !in PrototypeNames(prototypes) {
        return Err(name);
      }
      PrefixGrow(names, i);
      seeds := seeds + {name};
      i := i + 1;
    }
    Whole(names);
    r := Ok(seeds);
  }

  /** The loop that builds `children_by_parent`. */
  method ChildrenByParent(prototypes: seq<Prototype>) returns (g: Graph)
    ensures g == Children(prototypes)
  {
    g := map[];
    var i := 0;
    while i < |prototypes|
      invariant 0 <= i <= |prototypes|
      invariant g == Children(prototypes[..i])
    {
      PrefixGrow(prototypes, i);
      var p := prototypes[i];
      if p.base.Some? {
        g := g[p.base.value := Succ(g, p.base.value) + {p.name}];
      }
      i := i + 1;
    }
    Whole(prototypes);
  }

  /** A compilation failure at entry `i - 1` makes the gathering fail with it. */
  lemma {:induction false} NeededByFailed(m: Maker, fuel: nat, entries: seq<(string, TypeExpression)>, i: nat)
    requires 1 <= i <= |entries|
    requires NeededBy(m, fuel, entries[..i - 1]).Ok?
    requires Compile(m, fuel, entries[i - 1].1).result.Err?
    ensures NeededBy(m, fuel, entries[..i]) == Err(Compile(m, fuel, entries[i - 1].1).result.error)
  {
    PrefixGrow(entries, i - 1);
  }

  /** Once a prefix fails, the whole gathering fails with the same error. */
  lemma {:induction false} NeededByFailureStays(m: Maker, fuel: nat, entries: seq<(string, TypeExpression)>, i: nat)
    requires i <= |entries| && NeededBy(m, fuel, entries[..i]).Err?
    ensures NeededBy(m, fuel, entries) == NeededBy(m, fuel, entries[..i])
    decreases |entries| - i
  {
    if i == |entries| {
      Whole(entries);
    } else {
      var init := entries[..|entries| - 1];
      PrefixOfPrefix(entries, |entries| - 1, i);
      NeededByFailureStays(m, fuel, init, i);
    }
  }
}
