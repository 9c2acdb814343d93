/** The type-expression IR: the closed set of type expressions, properties, named types,
    prototypes and the documentation that holds them, with the lookups the source offers. */
module TypeExpressions {
  import opened Wrappers

  datatype TypeExpression =
    | Builtin(name: string)
    | LiteralBool(boolValue: bool)
    | LiteralString(stringValue: string)
    | LiteralInteger(intValue: int)
    | Ref(ref: string)
    | Union(members: seq<TypeExpression>)
    | Array(content: TypeExpression)
    | Dictionary(keys: TypeExpression, values: TypeExpression)
    | Struct(base: Option<string>, properties: seq<Property>,
             overriddenProperties: seq<Property>, customProperties: Option<TypeExpression>)
    | Tuple(members: seq<TypeExpression>)

  /** A struct or prototype property; several names are aliases of one property. */
  datatype Property = Property(names: seq<string>, typ: TypeExpression, required: bool)

  /** The `kind` tag of each variant, used where the source asserts `isinstance`. */
  datatype Kind = BuiltinKind | LiteralBoolKind | LiteralStringKind | LiteralIntegerKind | RefKind
                | UnionKind | ArrayKind | DictionaryKind | StructKind | TupleKind

  function KindOf(t: TypeExpression): Kind
  {
    match t
    case Builtin(_) => BuiltinKind
    case LiteralBool(_) => LiteralBoolKind
    case LiteralString(_) => LiteralStringKind
    case LiteralInteger(_) => LiteralIntegerKind
    case Ref(_) => RefKind
    case Union(_) => UnionKind
    case Array(_) => ArrayKind
    case Dictionary(_, _) => DictionaryKind
    case Struct(_, _, _, _) => StructKind
    case Tuple(_) => TupleKind
  }

  /** A named, reusable type. */
  datatype Type = Type(name: string, definition: TypeExpression)

  /** A prototype; `key == None` means abstract (inheritance only). */
  datatype Prototype = Prototype(
    name: string,
    key: Option<string>,
    base: Option<string>,
    properties: seq<Property>,
    overriddenProperties: seq<Property>,
    customProperties: Option<TypeExpression>)

  datatype Doc = Doc(types: seq<Type>, prototypes: seq<Prototype>)

  /** The `"type"` discriminator property a keyed prototype gets. */
  function TypeProperty(key: string): Property
  {
    Property(["type"], LiteralString(key), true)
  }

  /** `Prototype.make_definition`: the prototype as a struct; a keyed prototype gets one
      more property, a required `"type"` whose type is the literal key, after its own. */
  function MakeDefinition(p: Prototype): (r: TypeExpression)
    ensures r.Struct?
    ensures r.base == p.base && r.overriddenProperties == p.overriddenProperties
    ensures r.customProperties == p.customProperties
    ensures |r.properties| == |p.properties| + (if p.key.Some? then 1 else 0)
    ensures r.properties[..|p.properties|] == p.properties
    ensures p.key.Some? ==> r.properties[|p.properties|] == TypeProperty(p.key.value)
  {
    var properties := p.properties + (if p.key.Some? then [TypeProperty(p.key.value)] else []);
    Struct(p.base, properties, p.overriddenProperties, p.customProperties)
  }

  /** The index of the first property one of whose names is `name`. */
  function FindProperty(properties: seq<Property>, name: string): (r: Option<nat>)
    ensures r.None? <==> forall i :: 0 <= i < |properties| ==> name !in properties[i].names
    ensures r.Some? ==> r.value < |properties| && name in properties[r.value].names
    ensures r.Some? ==> forall j :: 0 <= j < r.value ==> name !in properties[j].names
  {
    if properties == [] then None
    else if name in properties[0].names then Some(0)
    else
      var r := FindProperty(properties[1..], name);
      if r.None? then None else Some(r.value + 1)
  }

  /** `get_property`: the first property named `name`, or a `ValueError`. */
  function GetProperty(properties: seq<Property>, name: string): (r: Result<Property, string>)
    ensures r.Err? <==> forall i :: 0 <= i < |properties| ==> name !in properties[i].names
    ensures r.Ok? ==> exists i :: 0 <= i < |properties| && properties[i] == r.value && name in r.value.names
                                  && forall j :: 0 <= j < i ==> name !in properties[j].names
  {
    match FindProperty(properties, name)
    case Some(i) => Ok(properties[i])
    case None => Err("Property " + name + " not found")
  }

  /** `get_property_type`: the type of that property; when a kind is asked for, the
      source asserts it. */
  function GetPropertyType(properties: seq<Property>, name: string, kind: Option<Kind>): (r: Result<TypeExpression, string>)
    ensures r.Ok? <==> GetProperty(properties, name).Ok?
                       && (kind.Some? ==> KindOf(GetProperty(properties, name).value.typ) == kind.value)
    ensures r.Ok? ==> r.value == GetProperty(properties, name).value.typ
  {
    match GetProperty(properties, name)
    case Err(e) => Err(e)
    case Ok(p) =>
      if kind.Some? && KindOf(p.typ) != kind.value then Err("assertion failed: unexpected kind")
      else Ok(p.typ)
  }

  /** `set_property_type`: the first property named `name` gets the new type; every other
      property, and that property's names and required flag, stay as they were. */
  function SetPropertyType(properties: seq<Property>, name: string, t: TypeExpression): (r: Result<seq<Property>, string>)
    ensures r.Err? <==> FindProperty(properties, name).None?
    ensures r.Ok? ==> |r.value| == |properties|
    ensures r.Ok? ==> var i := FindProperty(properties, name).value;
                      && r.value[i] == properties[i].(typ := t)
                      && forall j :: 0 <= j < |properties| && j != i ==> r.value[j] == properties[j]
  {
    match FindProperty(properties, name)
    case None => Err("Property " + name + " not found")
    case Some(i) => Ok(properties[i := properties[i].(typ := t)])
  }

  /** `set_property_type` on a struct type expression. */
  function SetStructPropertyType(s: TypeExpression, name: string, t: TypeExpression): (r: Result<TypeExpression, string>)
    requires s.Struct?
    ensures r.Ok? <==> FindProperty(s.properties, name).Some?
    ensures r.Ok? ==> r.value.Struct? && r.value.base == s.base
                      && r.value.overriddenProperties == s.overriddenProperties
                      && r.value.customProperties == s.customProperties
                      && GetPropertyType(r.value.properties, name, None) == Ok(t)
  {
    match SetPropertyType(s.properties, name, t)
    case Err(e) => Err(e)
    case Ok(ps) =>
      var i := FindProperty(s.properties, name).value;
      assert forall j :: 0 <= j < i ==> ps[j] == s.properties[j];
      assert FindProperty(ps, name) == Some(i);
      Ok(s.(properties := ps))
  }

  /** `set_property_type` on a prototype. */
  function SetPrototypePropertyType(p: Prototype, name: string, t: TypeExpression): (r: Result<Prototype, string>)
    ensures r.Ok? <==> FindProperty(p.properties, name).Some?
    ensures r.Ok? ==> r.value.name == p.name && r.value.key == p.key && r.value.base == p.base
                      && r.value.overriddenProperties == p.overriddenProperties
                      && r.value.customProperties == p.customProperties
                      && GetPropertyType(r.value.properties, name, None) == Ok(t)
  {
    match SetPropertyType(p.properties, name, t)
    case Err(e) => Err(e)
    case Ok(ps) =>
      var i := FindProperty(p.properties, name).value;
      assert forall j :: 0 <= j < i ==> ps[j] == p.properties[j];
      assert FindProperty(ps, name) == Some(i);
      Ok(p.(properties := ps))
  }

  /** The index of the first type named `name`. */
  function FindType(types: seq<Type>, name: string): (r: Option<nat>)
    ensures r.None? <==> forall i :: 0 <= i < |types| ==> types[i].name != name
    ensures r.Some? ==> r.value < |types| && types[r.value].name == name
    ensures r.Some? ==> forall j :: 0 <= j < r.value ==> types[j].name != name
  {
    if types == [] then None
    else if types[0].name == name then Some(0)
    else
      var r := FindType(types[1..], name);
      if r.None? then None else Some(r.value + 1)
  }

  /** `Doc.get_type_def`: the definition of the first type named `name`, or a `ValueError`;
      when a kind is asked for, the source asserts it. */
  function GetTypeDef(doc: Doc, name: string, kind: Option<Kind>): (r: Result<TypeExpression, string>)
    ensures r.Ok? <==> FindType(doc.types, name).Some?
                       && (kind.Some? ==> KindOf(doc.types[FindType(doc.types, name).value].definition) == kind.value)
    ensures r.Ok? ==> r.value == doc.types[FindType(doc.types, name).value].definition
    decreases |doc.types|
  {
    if doc.types == [] then Err("Type " + name + " not found")
    else if doc.types[0].name == name then
      if kind.Some? && KindOf(doc.types[0].definition) != kind.value then Err("assertion failed: unexpected kind")
      else Ok(doc.types[0].definition)
    else
      var r := GetTypeDef(doc.(types := doc.types[1..]), name, kind);
      assert FindType(doc.types[1..], name).Some? ==> doc.types[1..][FindType(doc.types[1..], name).value] == doc.types[FindType(doc.types, name).value];
      r
  }

  /** `Doc.get_prototype`: the first prototype named `name`, or a `ValueError`. */
  function GetPrototype(doc: Doc, name: string): (r: Result<Prototype, string>)
    ensures r.Err? <==> forall i :: 0 <= i < |doc.prototypes| ==> doc.prototypes[i].name != name
    ensures r.Ok? ==> exists i :: 0 <= i < |doc.prototypes| && doc.prototypes[i] == r.value && r.value.name == name
                                  && (forall j :: 0 <= j < i ==> doc.prototypes[j].name != name)
    decreases |doc.prototypes|
  {
    if doc.prototypes == [] then Err("Prototype " + name + " not found")
    else if doc.prototypes[0].name == name then Ok(doc.prototypes[0])
    else
      var r := GetPrototype(doc.(prototypes := doc.prototypes[1..]), name);
      if r.Ok? then
        var i :| 0 <= i < |doc.prototypes[1..]| && doc.prototypes[1..][i] == r.value
                 && (forall j :: 0 <= j < i ==> doc.prototypes[1..][j].name != name);
        assert doc.prototypes[i + 1] == r.value;
        r
      else
        assert forall i :: 1 <= i < |doc.prototypes| ==> doc.prototypes[i] == doc.prototypes[1..][i - 1];
        r
  }
}
