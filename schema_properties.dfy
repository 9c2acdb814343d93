/** What `JsonSchemaMaker.to_json` promises about the document it emits: which top-level
    properties and which definitions appear, which of two clashing definitions wins, and that
    the definitions emitted through references never name a forbidden type. */
module SchemaProperties {
  import opened Wrappers
  import opened Dicts
  import opened Json
  import opened TypeExpressions
  import opened Compiler
  import opened Reachability
  import opened SchemaMaker

  /** A comprehension assigns each key once: its keys are unique. */
  lemma {:induction false} ComprehensionUnique(entries: seq<Entry>)
    ensures Comprehension(entries).Ok? ==> UniqueKeys(Comprehension(entries).value)
    decreases |entries|
  {
    if entries != [] {
      var init := entries[..|entries| - 1];
      ComprehensionUnique(init);
      var e := entries[|entries| - 1];
      if Comprehension(init).Ok? && e.Some? && e.value.1.Ok? {
        SetUnique(Comprehension(init).value, e.value.0, e.value.1.value);
      }
    }
  }

  /** A keyed prototype is a candidate top-level property when it is included. */
  predicate KeyedIn(p: Prototype, included: set<string>)
  {
    p.key.Some? && p.name in included
  }

  /** `properties` of `to_json`: it can be built exactly when no included keyed prototype is
      forbidden, and then holds one key per included keyed prototype. */
  lemma PropertiesShape(m: Maker, prototypes: seq<Prototype>, included: set<string>)
    ensures var r := Comprehension(PropertyEntries(m, prototypes, included));
            && (r.Ok? <==> forall i :: 0 <= i < |prototypes| && KeyedIn(prototypes[i], included) ==> prototypes[i].name !in m.forbidden)
            && (r.Ok? ==> forall k :: Get(r.value, k).Some? <==>
                            exists i :: 0 <= i < |prototypes| && KeyedIn(prototypes[i], included) && prototypes[i].key == Some(k))
  {
    var entries := PropertyEntries(m, prototypes, included);
    ComprehensionShape(entries);
    forall i | 0 <= i < |prototypes|
      ensures entries[i].Some? <==> KeyedIn(prototypes[i], included)
      ensures entries[i].Some? ==> entries[i].value.0 == prototypes[i].key.value
                                   && (entries[i].value.1.Ok? <==> prototypes[i].name !in m.forbidden)
    {
    }
  }

  /** A type is defined unless it is forbidden. */
  predicate TypeDefined(m: Maker, types: seq<Type>, k: string)
  {
    exists i :: 0 <= i < |types| && types[i].name == k && k !in m.forbidden
  }

  /** A prototype is defined when it has a key. */
  predicate PrototypeDefined(prototypes: seq<Prototype>, k: string)
  {
    exists i :: 0 <= i < |prototypes| && prototypes[i].name == k && prototypes[i].key.Some?
  }

  /** The types' comprehension has a key for each type that is not forbidden. */
  lemma TypeDefinitionKeys(m: Maker, fuel: nat, types: seq<Type>)
    ensures var r := Comprehension(TypeDefinitionEntries(m, fuel, types));
            r.Ok? ==> forall k :: Get(r.value, k).Some? <==> TypeDefined(m, types, k)
  {
    var entries := TypeDefinitionEntries(m, fuel, types);
    ComprehensionShape(entries);
    forall k
      ensures (exists i :: 0 <= i < |entries| && entries[i].Some? && entries[i].value.0 == k) <==> TypeDefined(m, types, k)
    {
      if TypeDefined(m, types, k) {
        var i :| 0 <= i < |types| && types[i].name == k && k !in m.forbidden;
        assert entries[i].Some? && entries[i].value.0 == k;
      }
      if exists i :: 0 <= i < |entries| && entries[i].Some? && entries[i].value.0 == k {
        var i :| 0 <= i < |entries| && entries[i].Some? && entries[i].value.0 == k;
        assert types[i].name == k && k !in m.forbidden;
      }
    }
  }

  /** Once the forbidden names are settled, the types' comprehension succeeds. */
  lemma TypeDefinitionsSettled(m: Maker, fuel: nat, types: seq<Type>)
    requires Settled(m, fuel, types)
    ensures Comprehension(TypeDefinitionEntries(m, fuel, types)).Ok?
  {
    ComprehensionShape(TypeDefinitionEntries(m, fuel, types));
  }

  /** The prototypes' comprehension has a key for each keyed prototype. */
  lemma PrototypeDefinitionKeys(m: Maker, fuel: nat, prototypes: seq<Prototype>)
    ensures var r := Comprehension(PrototypeDefinitionEntries(m, fuel, prototypes));
            r.Ok? ==> forall k :: Get(r.value, k).Some? <==> PrototypeDefined(prototypes, k)
  {
    var entries := PrototypeDefinitionEntries(m, fuel, prototypes);
    ComprehensionShape(entries);
    forall k
      ensures (exists i :: 0 <= i < |entries| && entries[i].Some? && entries[i].value.0 == k) <==> PrototypeDefined(prototypes, k)
    {
      if PrototypeDefined(prototypes, k) {
        var i :| 0 <= i < |prototypes| && prototypes[i].name == k && prototypes[i].key.Some?;
        assert entries[i].Some? && entries[i].value.0 == k;
      }
      if exists i :: 0 <= i < |entries| && entries[i].Some? && entries[i].value.0 == k {
        var i :| 0 <= i < |entries| && entries[i].Some? && entries[i].value.0 == k;
        assert prototypes[i].name == k && prototypes[i].key.Some?;
      }
    }
  }

  /** The definitions before filtering have a key for every type that is not forbidden and
      for every keyed prototype; where a prototype and a type share a name, the prototype's
      definition is kept. */
  lemma DefinitionsShape(m: Maker, fuel: nat, doc: Doc)
    ensures var r := Definitions(m, fuel, doc);
            && (r.Ok? ==> forall k :: Get(r.value, k).Some? <==> TypeDefined(m, doc.types, k) || PrototypeDefined(doc.prototypes, k))
            && (r.Ok? ==> forall k :: PrototypeDefined(doc.prototypes, k) ==>
                            Get(r.value, k) == Get(Comprehension(PrototypeDefinitionEntries(m, fuel, doc.prototypes)).value, k))
  {
    var types := Comprehension(TypeDefinitionEntries(m, fuel, doc.types));
    var prototypes := Comprehension(PrototypeDefinitionEntries(m, fuel, doc.prototypes));
    if types.Ok? && prototypes.Ok? {
      TypeDefinitionKeys(m, fuel, doc.types);
      PrototypeDefinitionKeys(m, fuel, doc.prototypes);
      ComprehensionUnique(PrototypeDefinitionEntries(m, fuel, doc.prototypes));
      forall k
        ensures Get(Merge(types.value, prototypes.value), k).Some? <==> TypeDefined(m, doc.types, k) || PrototypeDefined(doc.prototypes, k)
        ensures PrototypeDefined(doc.prototypes, k) ==> Get(Merge(types.value, prototypes.value), k) == Get(prototypes.value, k)
      {
        MergeGet(types.value, prototypes.value, k);
        LastValueUnique(prototypes.value, k);
      }
    }
  }

  /** `{"description": url} | definition`: every key of the definition keeps the
      definition's value, `description` included; the URL is the description only when the
      definition has none. */
  lemma DescribedPrecedence(url: string, d: JsonDict, k: string)
    ensures Described(url, Ok(d)).Ok?
    ensures Get(Described(url, Ok(d)).value.fields, k) ==
            if Get(d, k).Some? then LastValue(d, k) else if k == "description" then Some(Str(url)) else None
  {
    MergeGet([("description", Str(url))], d, k);
  }

  /** The names that are reached through a reference, rather than being roots, are never
      forbidden: `make_reference` records only names it does not refuse. */
  lemma {:induction false} ReferencedNotForbidden(m: Maker, fuel: nat, entries: seq<(string, TypeExpression)>, roots: set<string>, n: string)
    requires NeededBy(m, fuel, entries).Ok?
    requires n in Reachable(NeededBy(m, fuel, entries).value, roots) && n !in roots
    ensures n !in m.forbidden
  {
    var g := NeededBy(m, fuel, entries).value;
    NeededByShape(m, fuel, entries);
    var p :| IsPath(g, p) && p[0] in roots && p[|p| - 1] == n;
    assert |p| >= 2;
    assert n in Succ(g, p[|p| - 2]);
  }


  /** The definitions `to_json` emits: exactly the names reachable from the included
      prototypes that are a type which is not forbidden or a keyed prototype. */
  lemma ToJsonDefinitions(m: Maker, fuel: nat, doc: Doc, included: set<string>, neededBy: Graph)
    requires ToJsonSpec(m, fuel, doc, included, neededBy).Ok?
    ensures var document := ToJsonSpec(m, fuel, doc, included, neededBy).value;
            && Get(document, "definitions").Some? && Get(document, "definitions").value.Obj?
            && forall k :: Get(Get(document, "definitions").value.fields, k).Some? <==>
                             && k in Reachable(neededBy, included)
                             && (TypeDefined(m, doc.types, k) || PrototypeDefined(doc.prototypes, k))
  {
    DefinitionsShape(m, fuel, doc);
    var properties := Comprehension(PropertyEntries(m, doc.prototypes, included)).value;
    var definitions := Definitions(m, fuel, doc).value;
    SchemaDocumentMembers(properties, Restrict(definitions, Reachable(neededBy, included)));
  }

  /** The top-level properties `to_json` emits: one key per included keyed prototype. */
  lemma ToJsonProperties(m: Maker, fuel: nat, doc: Doc, included: set<string>, neededBy: Graph)
    requires ToJsonSpec(m, fuel, doc, included, neededBy).Ok?
    ensures var document := ToJsonSpec(m, fuel, doc, included, neededBy).value;
            && Get(document, "properties").Some? && Get(document, "properties").value.Obj?
            && forall k :: Get(Get(document, "properties").value.fields, k).Some? <==>
                             exists i :: 0 <= i < |doc.prototypes| && KeyedIn(doc.prototypes[i], included) && doc.prototypes[i].key == Some(k)
  {
    PropertiesShape(m, doc.prototypes, included);
    var properties := Comprehension(PropertyEntries(m, doc.prototypes, included)).value;
    var definitions := Definitions(m, fuel, doc).value;
    SchemaDocumentMembers(properties, Restrict(definitions, Reachable(neededBy, included)));
  }

  /** `to_json` fails only by a failure of the properties or of a definition: with the
      forbidden names settled and no included keyed prototype forbidden, it fails only if a
      keyed prototype's definition does. */
  lemma ToJsonFailsOnlyAtPrototypes(m: Maker, fuel: nat, doc: Doc, included: set<string>, neededBy: Graph)
    requires Settled(m, fuel, doc.types)
    requires forall i :: 0 <= i < |doc.prototypes| && KeyedIn(doc.prototypes[i], included) ==> doc.prototypes[i].name !in m.forbidden
    requires Comprehension(PrototypeDefinitionEntries(m, fuel, doc.prototypes)).Ok?
    ensures ToJsonSpec(m, fuel, doc, included, neededBy).Ok?
  {
    PropertiesShape(m, doc.prototypes, included);
    TypeDefinitionsSettled(m, fuel, doc.types);
  }

  /** With descendants, the included prototypes hold the suffixed limit names and every
      prototype whose base is included. */
  lemma IncludedClosedUnderChildren(prototypes: seq<Prototype>, limit: seq<string>, i: nat)
    requires i < |prototypes|
    requires prototypes[i].base.Some? && prototypes[i].base.value in Included(prototypes, Some(limit), true)
    ensures SeedNames(limit) <= Included(prototypes, Some(limit), true)
    ensures prototypes[i].name in Included(prototypes, Some(limit), true)
  {
    var g := Children(prototypes);
    RootsReachable(g, SeedNames(limit));
    ReachableClosed(g, SeedNames(limit), prototypes[i].base.value);
    assert prototypes[i].name in Succ(g, prototypes[i].base.value);
  }
}
