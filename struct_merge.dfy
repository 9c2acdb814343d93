/** `JsonDefinitionMaker.visit_struct`: the flattening of a visited struct hierarchy
    (base first, the struct itself last) into one JSON object definition. */
module StructMerge {
  import opened Wrappers
  import opened Dicts
  import opened Json
  import opened Sequences

  /** The two ways compiling a type expression stops: `Forbidden` (the type has no
      representable content; callers may drop it) and any other exception. */
  datatype Fail = Forbidden | Crash(reason: string)

  /** The message of the assertion that at most one level has custom properties. */
  const TwoCustomLevels := "assertion failed: " + "custom_properties is None"

  datatype VisitedProperty = VisitedProperty(names: seq<string>, typ: JsonDict, required: bool)

  datatype VisitedStruct = VisitedStruct(
    base: Option<string>,
    properties: seq<VisitedProperty>,
    overriddenProperties: seq<VisitedProperty>,
    customProperties: Option<JsonDict>)

  /** Every level's properties then overridden properties, levels in hierarchy order. */
  function Flatten(h: seq<VisitedStruct>): seq<VisitedProperty>
  {
    if h == [] then []
    else Flatten(h[..|h| - 1]) + h[|h| - 1].properties + h[|h| - 1].overriddenProperties
  }

  /** Every name of every property, in order, repetitions kept. */
  function AllNames(flat: seq<VisitedProperty>): seq<string>
  {
    if flat == [] then [] else AllNames(flat[..|flat| - 1]) + flat[|flat| - 1].names
  }

  /** `for name in names: properties[name] = typ`. */
  function AssignNames(properties: JsonDict, names: seq<string>, typ: JsonDict): JsonDict
  {
    if names == [] then properties
    else Set(AssignNames(properties, names[..|names| - 1], typ), names[|names| - 1], Obj(typ))
  }

  /** The merged `properties` object after every property of `flat` was visited. */
  function MergedProperties(flat: seq<VisitedProperty>): JsonDict
  {
    if flat == [] then []
    else AssignNames(MergedProperties(flat[..|flat| - 1]), flat[|flat| - 1].names, flat[|flat| - 1].typ)
  }

  /** Only a property with exactly one name records its required flag. */
  function RecordRequired(required: Dict<bool>, p: VisitedProperty): Dict<bool>
  {
    if |p.names| == 1 then Set(required, p.names[0], p.required) else required
  }

  /** The `required` flags after every property of `flat` was visited. */
  function RequiredFlags(flat: seq<VisitedProperty>): Dict<bool>
  {
    if flat == [] then [] else RecordRequired(RequiredFlags(flat[..|flat| - 1]), flat[|flat| - 1])
  }

  /** How many levels declare custom properties. */
  function CustomLevels(h: seq<VisitedStruct>): nat
  {
    if h == [] then 0
    else CustomLevels(h[..|h| - 1]) + (if h[|h| - 1].customProperties.Some? then 1 else 0)
  }

  /** The custom properties of the hierarchy: none, the one level's, or a failed assertion
      when two levels declare some. */
  function MergedCustom(h: seq<VisitedStruct>): (r: Result<Option<JsonDict>, Fail>)
    ensures r.Err? <==> CustomLevels(h) >= 2
    ensures r.Err? ==> r.error == Crash(TwoCustomLevels)
    ensures r == Ok(None) <==> CustomLevels(h) == 0
    ensures r.Ok? && r.value.Some? ==> exists i :: 0 <= i < |h| && h[i].customProperties == r.value
  {
    if h == [] then Ok(None)
    else
      var last := h[|h| - 1].customProperties;
      match MergedCustom(h[..|h| - 1])
      case Err(e) => Err(e)
      case Ok(c) =>
        if last.Some? then
          if c.Some? then Err(Crash(TwoCustomLevels)) else Ok(last)
        else
          assert forall i :: 0 <= i < |h| - 1 ==> h[..|h| - 1][i] == h[i];
          Ok(c)
  }

  /** Some recorded flag is true: `any(required.values())`. */
  predicate AnyRequired(required: Dict<bool>)
  {
    exists i :: 0 <= i < |required| && required[i].1
  }

  /** `[name for name in keys if required.get(name, False)]`. */
  function RequiredNames(keys: seq<string>, required: Dict<bool>): (r: seq<string>)
    ensures forall k :: k in r <==> k in keys && Get(required, k) == Some(true)
  {
    if keys == [] then []
    else
      var rest := RequiredNames(keys[1..], required);
      assert forall k :: k in keys <==> k == keys[0] || k in keys[1..];
      if Get(required, keys[0]) == Some(true) then [keys[0]] + rest else rest
  }

  /** `{"type": "object", "properties": properties}`, then `additionalProperties` when there
      are custom properties. */
  function ObjectDefinition(properties: JsonDict, custom: Option<JsonDict>): (d: JsonDict)
    ensures |d| >= 2 && Keys(d)[0] == "type" && Keys(d)[1] == "properties"
    ensures Get(d, "type") == Some(Str("object"))
    ensures Get(d, "properties") == Some(Obj(properties))
    ensures Get(d, "additionalProperties") == if custom.Some? then Some(Obj(custom.value)) else None
    ensures Get(d, "required") == None
  {
    var d0: JsonDict := [("type", Str("object")), ("properties", Obj(properties))];
    assert Keys(d0) == ["type", "properties"];
    assert d0[1..] == [("properties", Obj(properties))] && d0[1..][1..] == [];
    assert Get(d0[1..], "additionalProperties") == None && Get(d0[1..], "required") == None;
    if custom.Some? then Set(d0, "additionalProperties", Obj(custom.value)) else d0
  }

  /** The `required` list, when some recorded flag is true. */
  function RequiredEntry(properties: JsonDict, required: Dict<bool>): Option<Json>
  {
    if AnyRequired(required) then Some(Arr(Strs(RequiredNames(Keys(properties), required)))) else None
  }

  /** The object definition built from the merged parts, with `required` added when some
      recorded flag is true. */
  function StructDefinition(properties: JsonDict, custom: Option<JsonDict>, required: Dict<bool>): (d: JsonDict)
    ensures |d| >= 2 && Keys(d)[0] == "type" && Keys(d)[1] == "properties"
    ensures Get(d, "type") == Some(Str("object"))
    ensures Get(d, "properties") == Some(Obj(properties))
    ensures Get(d, "additionalProperties") == if custom.Some? then Some(Obj(custom.value)) else None
    ensures Get(d, "required") == RequiredEntry(properties, required)
  {
    var d1 := ObjectDefinition(properties, custom);
    match RequiredEntry(properties, required)
    case None => d1
    case Some(list) => Set(d1, "required", list)
  }

  /** `visit_struct` as a function of the hierarchy. */
  function MergeStruct(h: seq<VisitedStruct>): Result<JsonDict, Fail>
  {
    var properties := MergedProperties(Flatten(h));
    match MergedCustom(h)
    case Err(e) => Err(e)
    case Ok(custom) =>
      if custom.None? && |properties| == 0 then Err(Forbidden)
      else Ok(StructDefinition(properties, custom, RequiredFlags(Flatten(h))))
  }

  /** The last property of `flat` that has the name `k`. */
  function LastNamed(flat: seq<VisitedProperty>, k: string): (r: Option<nat>)
    ensures r.None? <==> forall i :: 0 <= i < |flat| ==> k !in flat[i].names
    ensures r.Some? ==> r.value < |flat| && k in flat[r.value].names
                        && forall j :: r.value < j < |flat| ==> k !in flat[j].names
  {
    if flat == [] then None
    else if k in flat[|flat| - 1].names then Some(|flat| - 1)
    else LastNamed(flat[..|flat| - 1], k)
  }

  /** The last property of `flat` whose only name is `k`. */
  function LastSolelyNamed(flat: seq<VisitedProperty>, k: string): (r: Option<nat>)
    ensures r.None? <==> forall i :: 0 <= i < |flat| ==> flat[i].names != [k]
    ensures r.Some? ==> r.value < |flat| && flat[r.value].names == [k]
                        && forall j :: r.value < j < |flat| ==> flat[j].names != [k]
  {
    if flat == [] then None
    else if flat[|flat| - 1].names == [k] then Some(|flat| - 1)
    else LastSolelyNamed(flat[..|flat| - 1], k)
  }

  lemma {:induction false} AssignNamesGet(d: JsonDict, names: seq<string>, typ: JsonDict, k: string)
    ensures Get(AssignNames(d, names, typ), k) == if k in names then Some(Obj(typ)) else Get(d, k)
    decreases names
  {
    if names != [] {
      var init := names[..|names| - 1];
      AssignNamesGet(d, init, typ, k);
      assert k in names <==> k in init || k == names[|names| - 1];
    }
  }

  lemma {:induction false} AssignNamesKeys(d: JsonDict, s: seq<string>, names: seq<string>, typ: JsonDict)
    requires Keys(d) == Dedup(s)
    ensures Keys(AssignNames(d, names, typ)) == Dedup(s + names)
    decreases names
  {
    if names == [] {
      assert s + names == s;
    } else {
      var init := names[..|names| - 1];
      var last := names[|names| - 1];
      AssignNamesKeys(d, s, init, typ);
      GetKeys(AssignNames(d, init, typ), last);
      assert (s + names)[..|s + names| - 1] == s + init;
      assert last in Dedup(s + init) <==> last in s + init;
    }
  }

  /** The keys of the merged properties are all property names in order of first
      appearance: a name reassigned later keeps its first position. */
  lemma {:induction false} MergedPropertiesKeys(flat: seq<VisitedProperty>)
    ensures Keys(MergedProperties(flat)) == Dedup(AllNames(flat))
    decreases |flat|
  {
    if flat != [] {
      var init := flat[..|flat| - 1];
      MergedPropertiesKeys(init);
      AssignNamesKeys(MergedProperties(init), AllNames(init), flat[|flat| - 1].names, flat[|flat| - 1].typ);
    }
  }

  /** Each name maps to the type of the last property carrying it (an overriding level wins). */
  lemma {:induction false} MergedPropertiesGet(flat: seq<VisitedProperty>, k: string)
    ensures Get(MergedProperties(flat), k) ==
            match LastNamed(flat, k) case None => None case Some(i) => Some(Obj(flat[i].typ))
    decreases |flat|
  {
    if flat != [] {
      var init := flat[..|flat| - 1];
      var last := flat[|flat| - 1];
      AssignNamesGet(MergedProperties(init), last.names, last.typ, k);
      if k !in last.names {
        MergedPropertiesGet(init, k);
        if LastNamed(init, k).Some? {
          InitIndex(flat, LastNamed(init, k).value);
        }
      }
    }
  }

  /** Each single-named property's flag is the one of the last property whose only name it is;
      names of multi-named properties get no flag. */
  lemma {:induction false} RequiredFlagsGet(flat: seq<VisitedProperty>, k: string)
    ensures Get(RequiredFlags(flat), k) ==
            match LastSolelyNamed(flat, k) case None => None case Some(i) => Some(flat[i].required)
    decreases |flat|
  {
    if flat != [] {
      var init := flat[..|flat| - 1];
      var last := flat[|flat| - 1];
      if last.names != [k] {
        RequiredFlagsGet(init, k);
        if LastSolelyNamed(init, k).Some? {
          InitIndex(flat, LastSolelyNamed(init, k).value);
        }
      }
    }
  }

  lemma {:induction false} RequiredFlagsUnique(flat: seq<VisitedProperty>)
    ensures UniqueKeys(RequiredFlags(flat))
    decreases |flat|
  {
    if flat != [] {
      var p := flat[|flat| - 1];
      RequiredFlagsUnique(flat[..|flat| - 1]);
      if |p.names| == 1 {
        SetUnique(RequiredFlags(flat[..|flat| - 1]), p.names[0], p.required);
      }
    }
  }

  lemma {:induction false} GetUnique(d: Dict<bool>, i: nat)
    requires UniqueKeys(d) && i < |d|
    ensures Get(d, d[i].0) == Some(d[i].1)
    decreases i
  {
    if i > 0 {
      assert d[1..][i - 1] == d[i];
      GetUnique(d[1..], i - 1);
    }
  }

  /** Recording a name's flag needs a property that has that name. */
  lemma {:induction false} RequiredFlagsNamed(flat: seq<VisitedProperty>, k: string)
    requires Get(RequiredFlags(flat), k).Some?
    ensures k in AllNames(flat)
  {
    RequiredFlagsGet(flat, k);
    var i := LastSolelyNamed(flat, k).value;
    AllNamesHas(flat, i, k);
  }

  lemma {:induction false} AllNamesHas(flat: seq<VisitedProperty>, i: nat, k: string)
    requires i < |flat| && k in flat[i].names
    ensures k in AllNames(flat)
    decreases |flat|
  {
    if i < |flat| - 1 {
      AllNamesHas(flat[..|flat| - 1], i, k);
    }
  }

  /** The `"required"` list is present exactly when it is non-empty: some recorded flag is
      true iff some merged property name has a true flag. */
  lemma {:induction false} RequiredListNonEmpty(flat: seq<VisitedProperty>)
    ensures AnyRequired(RequiredFlags(flat)) <==> RequiredNames(Keys(MergedProperties(flat)), RequiredFlags(flat)) != []
  {
    var req := RequiredFlags(flat);
    var keys := Keys(MergedProperties(flat));
    MergedPropertiesKeys(flat);
    if AnyRequired(req) {
      var i :| 0 <= i < |req| && req[i].1;
      RequiredFlagsUnique(flat);
      GetUnique(req, i);
      RequiredFlagsNamed(flat, req[i].0);
      assert req[i].0 in RequiredNames(keys, req);
    } else if RequiredNames(keys, req) != [] {
      var k := RequiredNames(keys, req)[0];
      assert Get(req, k) == Some(true);
      GetFound(req, k);
    }
  }

  lemma {:induction false} GetFound(d: Dict<bool>, k: string)
    requires Get(d, k) == Some(true)
    ensures AnyRequired(d)
    decreases |d|
  {
    if d[0].0 != k {
      GetFound(d[1..], k);
      var i :| 0 <= i < |d[1..]| && d[1..][i].1;
      assert d[i + 1].1;
    }
  }

  /** A struct compiles to `Forbidden` exactly when no level has custom properties and no
      property survived; it fails the assertion exactly when two levels have custom properties. */
  lemma {:induction false} MergeStructFails(h: seq<VisitedStruct>)
    ensures MergeStruct(h) == Err(Forbidden) <==> CustomLevels(h) == 0 && AllNames(Flatten(h)) == []
    ensures MergeStruct(h).Err? && MergeStruct(h).error.Crash? <==> CustomLevels(h) >= 2
  {
    MergedPropertiesKeys(Flatten(h));
    var ks := AllNames(Flatten(h));
    if ks != [] {
      assert ks[0] in Dedup(ks);
    }
  }

  /** A successful struct definition: an object whose `properties` are the merged ones, with
      `additionalProperties` exactly when one level has custom properties. */
  lemma MergeStructShape(h: seq<VisitedStruct>)
    requires MergeStruct(h).Ok?
    ensures Get(MergeStruct(h).value, "properties") == Some(Obj(MergedProperties(Flatten(h))))
    ensures Get(MergeStruct(h).value, "additionalProperties").Some? <==> CustomLevels(h) == 1
  {
  }

  /** `visit_struct`, loop for loop: each level, each of its properties and overridden
      properties, each name. */
  method VisitStruct(h: seq<VisitedStruct>) returns (r: Result<JsonDict, Fail>)
    ensures r == MergeStruct(h)
  {
    var properties: JsonDict := [];
    var required: Dict<bool> := [];
    var custom: Option<JsonDict> := None;
    var i := 0;
    while i < |h|
      invariant 0 <= i <= |h|
      invariant properties == MergedProperties(Flatten(h[..i]))
      invariant required == RequiredFlags(Flatten(h[..i]))
      invariant MergedCustom(h[..i]) == Ok(custom)
    {
      var chain := h[i].properties + h[i].overriddenProperties;
      ghost var before := Flatten(h[..i]);
      FlattenStep(h, i);
      properties, required := MergeLevel(properties, required, chain, before);
      PrefixGrow(h, i);
      if h[i].customProperties.Some? {
        if custom.Some? {
          r := Err(Crash(TwoCustomLevels));
          CustomLevelsPrefix(h, i + 1);
          return;
        }
        custom := h[i].customProperties;
      }
      i := i + 1;
    }
    Whole(h);
    if custom.None? && |properties| == 0 {
      return Err(Forbidden);
    }
    r := Ok(StructDefinition(properties, custom, required));
  }

  /** The middle loop of `visit_struct`: one level's properties and overridden properties. */
  method MergeLevel(properties0: JsonDict, required0: Dict<bool>, chain: seq<VisitedProperty>,
                         ghost before: seq<VisitedProperty>)
    returns (properties: JsonDict, required: Dict<bool>)
    requires properties0 == MergedProperties(before) && required0 == RequiredFlags(before)
    ensures properties == MergedProperties(before + chain)
    ensures required == RequiredFlags(before + chain)
  {
    properties, required := properties0, required0;
    var j := 0;
    assert before + chain[..j] == before;
    while j < |chain|
      invariant 0 <= j <= |chain|
      invariant properties == MergedProperties(before + chain[..j])
      invariant required == RequiredFlags(before + chain[..j])
    {
      var p := chain[j];
      PrefixStep(before, chain, j);
      MergeStep(before + chain[..j], p);
      properties := AssignEach(properties, p.names, p.typ);
      if |p.names| == 1 {
        required := Set(required, p.names[0], p.required);
      }
      j := j + 1;
    }
    assert chain[..j] == chain;
  }

  /** The inner loop of `visit_struct`: every name of one property gets its type. */
  method AssignEach(properties0: JsonDict, names: seq<string>, typ: JsonDict) returns (properties: JsonDict)
    ensures properties == AssignNames(properties0, names, typ)
  {
    properties := properties0;
    var k := 0;
    while k < |names|
      invariant 0 <= k <= |names|
      invariant properties == AssignNames(properties0, names[..k], typ)
    {
      assert names[..k + 1][..k] == names[..k];
      properties := Set(properties, names[k], Obj(typ));
      k := k + 1;
    }
    assert names[..k] == names;
  }

  lemma MergeStep(flat: seq<VisitedProperty>, p: VisitedProperty)
    ensures MergedProperties(flat + [p]) == AssignNames(MergedProperties(flat), p.names, p.typ)
    ensures RequiredFlags(flat + [p]) == RecordRequired(RequiredFlags(flat), p)
  {
    assert (flat + [p])[..|flat|] == flat;
  }

  lemma FlattenStep(h: seq<VisitedStruct>, i: nat)
    requires i < |h|
    ensures Flatten(h[..i + 1]) == Flatten(h[..i]) + (h[i].properties + h[i].overriddenProperties)
  {
    PrefixGrow(h, i);
  }

  lemma {:induction false} CustomLevelsPrefix(h: seq<VisitedStruct>, n: nat)
    requires n <= |h|
    ensures CustomLevels(h[..n]) <= CustomLevels(h)
    decreases |h|
  {
    if n < |h| {
      assert h[..|h| - 1][..n] == h[..n];
      CustomLevelsPrefix(h[..|h| - 1], n);
    } else {
      assert h[..n] == h;
    }
  }
}
