# Factorio `data.raw` JSON Schema generator: a verified model of its core

The generator reads the Factorio Lua API documentation into an intermediate
representation of *type expressions* (builtins, literals, references, unions,
arrays, dictionaries, structs with a base, tuples), named *types* and
*prototypes*, and compiles them into one JSON Schema (draft 2019-09) document.
This project models that core in Dafny and proves what it promises:

- **the IR** (`TypeExpressions`): the type expressions, properties with
  aliased names, types, prototypes, `make_definition` and the property
  accessors;
- **the compiler** (`Compiler`, `StructMerge`, `BaseChains`,
  `CompilerProperties`):
  - `visit_type_expression` with `JsonDefinitionMaker`;
  - the climb through a struct's base chain, with union bases resolved to
    their first struct member;
  - the `Forbidden` rule: a struct with nothing left to describe is
    forbidden, and so is everything that references it;
  - the flattening of a struct hierarchy into one object definition
    (`visit_struct`), in which overriding levels win and `required` lists
    single-named required properties;
  - the recursion depth: on base chains that never loop back, the depth the
    maker allows is enough, so a recursion error means a cyclic chain;
- **the schema maker** (`SchemaMaker`, `Reachability`, `SchemaProperties`):
  - the `JsonSchemaMaker` class and its state;
  - the fixed point of forbidden type names;
  - the choice of the prototypes to include, with their descendants;
  - the reference graph between definitions;
  - `to_json`, which emits only the definitions reachable from the included
    prototypes;
- **the legacy schema path** (`LegacySchema`):
  - the `Schema` of the pre-IR pipeline, with `StructTypeDefinition`,
    `UnionTypeDefinition` and `to_json_value`;
  - prototype definitions accumulated down their base lineage, with the
    `required` list sorted;
- **the extraction transformer and link rule** (`Extraction`):
  - the transformer from parse trees of documented type expressions to JSON
    fragments, including the splicing of nested `oneOf` lists in unions;
  - the rule that turns documentation links into type and prototype names;
- **the patching helpers** (`Patching`):
  - the encoding of arrays, which also accepts an empty object because
    empty arrays are serialised as `{}`;
  - the `SchemaPatcher` class, whose dot-path helpers edit the schema in
    place.

JSON objects are insertion-ordered dictionaries (`Dicts.Dict`), so key order
and Python's "assigning an existing key keeps its position" rule are part of
what is proved. Python exceptions become values: `Fail.Forbidden` for the
`Forbidden` exception, and `Fail.Crash(reason)` for a failed assertion, a
`KeyError` or a `ValueError`.

## Model

| member | source | states |
|---|---|---|
| TypeExpressions.MakeDefinition | factorio_data_raw_json_schema/factorio_documentation.py:299-312 | the result is a struct with the prototype's base, overridden properties and custom properties; its properties are the prototype's, followed by a required `type` property holding the key's literal exactly when the prototype has a key |
| TypeExpressions.FindProperty | factorio_data_raw_json_schema/factorio_documentation.py:96-100 | the index of the first property one of whose names is `name`; none exactly when no property has that name |
| TypeExpressions.GetProperty | factorio_data_raw_json_schema/factorio_documentation.py:96-100 | a `ValueError` exactly when no property carries the name; otherwise a property of the list that carries it |
| TypeExpressions.GetPropertyType | factorio_data_raw_json_schema/factorio_documentation.py:106-110 | succeeds exactly when the property exists and, when a kind is asked for, has that kind; the result is that property's type |
| TypeExpressions.SetPropertyType | factorio_data_raw_json_schema/factorio_documentation.py:112-114 | fails exactly when no property has the name; otherwise only the first property with the name changes, and only its type |
| TypeExpressions.SetStructPropertyType | factorio_data_raw_json_schema/factorio_documentation.py:112-114 | on a struct: every other field is kept, and reading the property type back gives the new type |
| TypeExpressions.SetPrototypePropertyType | factorio_data_raw_json_schema/factorio_documentation.py:295-297 | on a prototype: name, key, base, overridden and custom properties are kept, and reading the property type back gives the new type |
| TypeExpressions.FindType | factorio_data_raw_json_schema/factorio_documentation.py:323-329 | the index of the first type called `name`; none exactly when no type has that name |
| TypeExpressions.GetTypeDef | factorio_data_raw_json_schema/factorio_documentation.py:323-329 | succeeds exactly when some type has the name and, when a kind is asked for, the first such type has that kind; the result is that type's definition |
| TypeExpressions.GetPrototype | factorio_data_raw_json_schema/factorio_documentation.py:331-335 | fails exactly when no prototype has the name; otherwise the first prototype with the name |
| Compiler.MakeReference | factorio_data_raw_json_schema/factorio_documentation.py:538-544 | succeeds exactly for a name that is not forbidden; it then returns the caller's reference string and records exactly that name, and a refusal records nothing |
| Compiler.GetReferableType | factorio_data_raw_json_schema/factorio_documentation.py:546-555 | a forbidden name gives `Forbidden` when it is a type and an assertion failure otherwise; else the type's definition, else the prototype's `make_definition`, else a `KeyError` |
| Compiler.VisitBuiltin | factorio_data_raw_json_schema/factorio_documentation.py:362-376 | succeeds exactly for the twelve builtin names |
| Compiler.UnsignedBuiltinBounds | factorio_data_raw_json_schema/factorio_documentation.py:368-371 | `uintW` admits exactly the integers from 0 to 2^W - 1, for W in 8, 16, 32 and 64 |
| Compiler.SignedBuiltinBounds | factorio_data_raw_json_schema/factorio_documentation.py:372-375 | `intW` admits exactly the integers from -2^(W-1) to 2^(W-1) - 1 |
| Compiler.FirstStruct | factorio_data_raw_json_schema/factorio_documentation.py:229-233 | the union member a union base climbs through: none exactly when no member is a struct, otherwise a struct member of the union |
| Compiler.Compile | factorio_data_raw_json_schema/factorio_documentation.py:190-261 | no name recorded as referenced while compiling is forbidden |
| Compiler.CompileEach | factorio_data_raw_json_schema/factorio_documentation.py:202-204 | union and tuple members compile in order: one fragment per member, and no forbidden name is recorded |
| Compiler.VisitProperties | factorio_data_raw_json_schema/factorio_documentation.py:215-222 | a failure of `visit_properties` is never `Forbidden`, because a forbidden property is skipped; it yields at most one visited property per property |
| Compiler.Hierarchy | factorio_data_raw_json_schema/factorio_documentation.py:224-253 | a hierarchy is never empty, and its last level is the struct's own, with its base |
| Compiler.VisitLevel | factorio_data_raw_json_schema/factorio_documentation.py:242-251 | a visited level keeps the struct's base |
| CompilerProperties.Chain | factorio_data_raw_json_schema/factorio_documentation.py:224-240 | the structs of a hierarchy, base first, end with the struct itself, and there are at most `fuel + 1` of them |
| CompilerProperties.ChainClimbs | factorio_data_raw_json_schema/factorio_documentation.py:224-240 | the chain starts where climbing stops; each struct's base resolves to the struct below it, directly or through the first struct member of a union |
| CompilerProperties.HierarchyFollowsChain | factorio_data_raw_json_schema/factorio_documentation.py:224-253 | `rec` fails exactly as climbing the chain fails, before any level is visited; otherwise it is the chain visited level by level, from the base up |
| CompilerProperties.BelowFollowsChain | factorio_data_raw_json_schema/factorio_documentation.py:225-240 | what lies below a struct is its chain without the top, visited level by level |
| CompilerProperties.HierarchyThen | factorio_data_raw_json_schema/factorio_documentation.py:242-253 | the struct's own level is appended after the levels below it, and the first failure wins |
| CompilerProperties.ClimbOneLevel | factorio_data_raw_json_schema/factorio_documentation.py:225-233 | one step of the climb: the levels below the struct are exactly the hierarchy of the struct its base resolves to |
| CompilerProperties.VisitPropertiesAllOk | factorio_data_raw_json_schema/factorio_documentation.py:215-222 | when every type compiles, there is one visited property per property, in order, with the same names, compiled type and required flag |
| CompilerProperties.ForbiddenPropertyDropped | factorio_data_raw_json_schema/factorio_documentation.py:215-222 | a property whose type is `Forbidden` is as if it were not declared |
| CompilerProperties.CompileEachFirstFailure | factorio_data_raw_json_schema/factorio_documentation.py:202-204 | the first member that fails decides the failure of the whole union or tuple |
| CompilerProperties.CompileEachAllOk | factorio_data_raw_json_schema/factorio_documentation.py:256-258 | when every member compiles, the fragments are the members' own, in order |
| CompilerProperties.CompileEachForbidden | factorio_data_raw_json_schema/factorio_documentation.py:202-204 | the members of a union or tuple are `Forbidden` exactly when the first member that fails is `Forbidden` |
| CompilerProperties.ForbiddenReference | factorio_data_raw_json_schema/factorio_documentation.py:538-544 | a reference to a forbidden type is `Forbidden` |
| CompilerProperties.ForbiddenPropagates | factorio_data_raw_json_schema/factorio_documentation.py:190-257 | `Forbidden` goes up through every container: an array exactly when its content is, a dictionary exactly when its keys are or its keys compile and its values are, a union or a tuple exactly when its first failing member is |
| BaseChains.ReferableResolves | factorio_data_raw_json_schema/factorio_documentation.py:546-555 | a name `get_referable_type` resolves is the type of that name, else the prototype's `make_definition` |
| BaseChains.ReferableNotRecursion | factorio_data_raw_json_schema/factorio_documentation.py:546-555 | resolving a name never fails with a recursion error |
| BaseChains.CompileDeepest | factorio_data_raw_json_schema/factorio_documentation.py:224-240 | a recursion error while compiling comes with a climb of `fuel + 1` base links that starts at a base written inside the expression |
| BaseChains.ClimbDistinct | factorio_data_raw_json_schema/factorio_documentation.py:224-240 | when no base chain loops back, a climb never names the same type or prototype twice |
| BaseChains.ClimbBound | factorio_data_raw_json_schema/factorio_documentation.py:224-240 | when no base chain loops back, a climb has at most as many links as there are type and prototype names |
| BaseChains.NoRecursionError | factorio_data_raw_json_schema/factorio_documentation.py:224-253 | when no base chain loops back and the fuel exceeds the number of names, compiling never fails with a recursion error |
| BaseChains.SelfBaseRecurses | factorio_data_raw_json_schema/factorio_documentation.py:224-240 | a struct whose base is itself recurses until the fuel runs out, for every fuel, as Python's `rec` does until its recursion limit |
| StructMerge.MergedCustom | factorio_data_raw_json_schema/factorio_documentation.py:412-414 | the assertion fails exactly when two or more levels have custom properties; with none the result is none; otherwise it is the custom properties of some level |
| StructMerge.RequiredNames | factorio_data_raw_json_schema/factorio_documentation.py:424-427 | exactly the property names whose recorded required flag is true |
| StructMerge.StructDefinition | factorio_data_raw_json_schema/factorio_documentation.py:416-427 | the definition starts with `type: object` and `properties`; it has `additionalProperties` exactly when there are custom properties, and `required` as recorded |
| StructMerge.ObjectDefinition | factorio_data_raw_json_schema/factorio_documentation.py:416-422 | the definition before `required` is added: `type` then `properties`, with `additionalProperties` exactly when there are custom properties, and no `required` |
| StructMerge.LastNamed | factorio_data_raw_json_schema/factorio_documentation.py:405-407 | the last visited property that carries a name: none exactly when none carries it |
| StructMerge.LastSolelyNamed | factorio_data_raw_json_schema/factorio_documentation.py:409-410 | the last visited property whose only name is the given one: none exactly when there is no such property |
| StructMerge.AssignNamesGet | factorio_data_raw_json_schema/factorio_documentation.py:406-407 | after assigning the names, each of them maps to the property's type and every other key is unchanged |
| StructMerge.AssignNamesKeys | factorio_data_raw_json_schema/factorio_documentation.py:406-407 | a reassigned key keeps its position and a new key is appended |
| StructMerge.MergedPropertiesKeys | factorio_data_raw_json_schema/factorio_documentation.py:404-407 | the keys of the merged `properties` are every property name, in the order of first appearance, each once |
| StructMerge.MergedPropertiesGet | factorio_data_raw_json_schema/factorio_documentation.py:404-407 | each name maps to the type of the last property that carries it, so overriding levels win |
| StructMerge.RequiredFlagsGet | factorio_data_raw_json_schema/factorio_documentation.py:404-410 | a name's required flag is that of the last property whose only name it is; a multi-name property records nothing |
| StructMerge.RequiredFlagsUnique | factorio_data_raw_json_schema/factorio_documentation.py:401-410 | the recorded required flags form a dictionary, with each name recorded once |
| StructMerge.RequiredFlagsNamed | factorio_data_raw_json_schema/factorio_documentation.py:409-410 | only a name of some property gets a required flag |
| StructMerge.RequiredListNonEmpty | factorio_data_raw_json_schema/factorio_documentation.py:424-427 | the `required` list is present exactly when it is non-empty |
| StructMerge.MergeStructFails | factorio_data_raw_json_schema/factorio_documentation.py:412-420 | a struct is `Forbidden` exactly when no level has custom properties and no property survives; the assertion fails exactly when two levels have custom properties |
| StructMerge.MergeStructShape | factorio_data_raw_json_schema/factorio_documentation.py:416-422 | a struct definition's `properties` are the merged ones; it has `additionalProperties` exactly when one level has custom properties |
| StructMerge.VisitStruct | factorio_data_raw_json_schema/factorio_documentation.py:399-429 | `visit_struct`, written loop for loop, computes exactly the merged definition specified above |
| StructMerge.MergeLevel | factorio_data_raw_json_schema/factorio_documentation.py:405-410 | the loop over one level's properties and overridden properties extends the merged properties and the required flags by that level's properties |
| StructMerge.AssignEach | factorio_data_raw_json_schema/factorio_documentation.py:406-407 | the loop over a property's names assigns the type to each name |
| Reachability.RootsReachable | factorio_data_raw_json_schema/factorio_documentation.py:583-588 | the roots are reachable |
| Reachability.ReachableClosed | factorio_data_raw_json_schema/factorio_documentation.py:585-589 | the reachable names are closed under successors |
| Reachability.ReachableLeast | factorio_data_raw_json_schema/factorio_documentation.py:583-589 | they are the least set that holds the roots and is closed under successors |
| Reachability.Explore | factorio_data_raw_json_schema/factorio_documentation.py:583-589 | the worklist loop of `to_json` collects exactly the names reachable from the roots |
| Reachability.ExploreAll | factorio_data_raw_json_schema/factorio_documentation.py:513-518 | the descendant worklist, which keeps no set of visited names, yields exactly the reachable names whenever it stops |
| Reachability.VisitStep | factorio_data_raw_json_schema/factorio_documentation.py:585-589 | visiting a pending name keeps every collected name reachable and every visited name's successors collected |
| Reachability.ExploreDone | factorio_data_raw_json_schema/factorio_documentation.py:583-589 | once nothing is pending, the names collected are exactly the reachable ones |
| SchemaMaker.TypesByName | factorio_data_raw_json_schema/factorio_documentation.py:452 | `types_by_name` is keyed by every type name |
| SchemaMaker.TypesByNameLastWins | factorio_data_raw_json_schema/factorio_documentation.py:452 | with two types of one name, the later definition is kept |
| SchemaMaker.PrototypesByName | factorio_data_raw_json_schema/factorio_documentation.py:453 | `prototypes_by_name` is keyed by every prototype name |
| SchemaMaker.PrototypesByNameLastWins | factorio_data_raw_json_schema/factorio_documentation.py:453 | with two prototypes of one name, the later one is kept |
| SchemaMaker.SeedNames | factorio_data_raw_json_schema/factorio_documentation.py:499-503 | the seeds are exactly the limit names with `Prototype` appended |
| SchemaMaker.Children | factorio_data_raw_json_schema/factorio_documentation.py:507-511 | a name's children are exactly the names of the prototypes whose base it is |
| SchemaMaker.PrototypeEntries | factorio_data_raw_json_schema/factorio_documentation.py:525-528 | every prototype, in order, with its `make_definition` |
| SchemaMaker.TypeEntries | factorio_data_raw_json_schema/factorio_documentation.py:530-534 | exactly the types that are not forbidden, each with its definition |
| SchemaMaker.TypeEntriesAppend | factorio_data_raw_json_schema/factorio_documentation.py:530-534 | the kept types stay in document order |
| SchemaMaker.NeededByShape | factorio_data_raw_json_schema/factorio_documentation.py:520-536 | the reference graph is built exactly when every definition compiles; then each name maps to the names its definition references, a later entry for a name replacing an earlier one |
| SchemaMaker.NeededByLast | factorio_data_raw_json_schema/factorio_documentation.py:525-534 | each name of the reference graph maps to exactly the references recorded while compiling the definition of the last entry with that name |
| SchemaMaker.NeededByFailed | factorio_data_raw_json_schema/factorio_documentation.py:524-534 | the first definition that fails to compile decides the failure |
| SchemaMaker.NeededByFailureStays | factorio_data_raw_json_schema/factorio_documentation.py:524-534 | once a definition fails, no later one changes the outcome |
| SchemaMaker.ComprehensionShape | factorio_data_raw_json_schema/factorio_documentation.py:561-581 | a dict comprehension succeeds exactly when every selected value does; it then has exactly the selected keys, each with the last value given for it |
| SchemaMaker.ComprehensionLast | factorio_data_raw_json_schema/factorio_documentation.py:561-581 | each key of a dict comprehension holds the value of the last selected entry with that key, and that value succeeded |
| SchemaMaker.PropertyEntries | factorio_data_raw_json_schema/factorio_documentation.py:561-567 | one candidate top-level property per prototype, in order |
| SchemaMaker.TypeDefinitionEntries | factorio_data_raw_json_schema/factorio_documentation.py:569-573 | one candidate definition per type, in order |
| SchemaMaker.PrototypeDefinitionEntries | factorio_data_raw_json_schema/factorio_documentation.py:574-581 | one candidate definition per prototype, in order |
| SchemaMaker.SchemaDocumentMembers | factorio_data_raw_json_schema/factorio_documentation.py:591-597 | the emitted document holds the given `properties` and `definitions` objects |
| SchemaMaker.JsonSchemaMaker.constructor | factorio_data_raw_json_schema/factorio_documentation.py:441-460 | the maker starts with the documentation, both name indexes, the caller's reference function or the default one, a recursion depth of one more than the number of names, and empty derived state |
| SchemaMaker.JsonSchemaMaker.OrderGrows | factorio_data_raw_json_schema/factorio_documentation.py:470-486 | a name forbidden for cause after the earlier ones extends the record of why each name is forbidden |
| SchemaMaker.JsonSchemaMaker.ForbidStep | factorio_data_raw_json_schema/factorio_documentation.py:478-482 | forbidding a type whose definition compiles to `Forbidden` under the current names keeps every forbidden name justified |
| SchemaMaker.JsonSchemaMaker.InitForbiddenTypeNames | factorio_data_raw_json_schema/factorio_documentation.py:470-486 | the forbidden names grow from the given ones only by type names, each added because its definition compiled to `Forbidden` under the names forbidden before it; on success they are settled: every other type compiles without being `Forbidden`; a failure is a crash, never a recursion error when no base chain loops back |
| SchemaMaker.JsonSchemaMaker.InitPrototypesToInclude | factorio_data_raw_json_schema/factorio_documentation.py:488-518 | on success the included prototypes are every prototype without a limit, else the seeds, and with descendants everything reachable from the seeds; a seed that names no prototype fails the assertion |
| SchemaMaker.JsonSchemaMaker.InitReferencesNeededBy | factorio_data_raw_json_schema/factorio_documentation.py:520-536 | the stored graph is the specified reference graph, and the loop fails exactly as it does |
| SchemaMaker.JsonSchemaMaker.ToJson | factorio_data_raw_json_schema/factorio_documentation.py:560-597 | `to_json` returns exactly the specified document |
| SchemaMaker.JsonSchemaMaker.Create | factorio_data_raw_json_schema/factorio_documentation.py:441-468 | a fresh maker is returned that holds the documentation, the name indexes built from it, the recursion depth of one more than the number of names and the caller's reference function or the default one, and that has run its three initialisation steps; when no base chain loops back, a failure is never a recursion error |
| SchemaMaker.CollectSeeds | factorio_data_raw_json_schema/factorio_documentation.py:495-503 | succeeds exactly when every suffixed limit name is a prototype, and then gives the seeds; a failure names a missing prototype |
| SchemaMaker.ChildrenByParent | factorio_data_raw_json_schema/factorio_documentation.py:508-511 | the loop builds exactly the children graph |
| SchemaProperties.ComprehensionUnique | factorio_data_raw_json_schema/factorio_documentation.py:561-581 | a comprehension assigns each key once |
| SchemaProperties.PropertiesShape | factorio_data_raw_json_schema/factorio_documentation.py:561-567 | the top-level properties can be built exactly when no included keyed prototype is forbidden; they then hold one key per included keyed prototype |
| SchemaProperties.TypeDefinitionKeys | factorio_data_raw_json_schema/factorio_documentation.py:569-573 | there is a type definition for exactly the types that are not forbidden |
| SchemaProperties.TypeDefinitionsSettled | factorio_data_raw_json_schema/factorio_documentation.py:569-573 | once the forbidden names are settled, every type definition compiles |
| SchemaProperties.PrototypeDefinitionKeys | factorio_data_raw_json_schema/factorio_documentation.py:574-581 | there is a prototype definition for exactly the keyed prototypes |
| SchemaProperties.DefinitionsShape | factorio_data_raw_json_schema/factorio_documentation.py:569-581 | the definitions are those of the non-forbidden types and the keyed prototypes; where a type and a prototype share a name, the prototype's wins |
| SchemaProperties.DescribedPrecedence | factorio_data_raw_json_schema/factorio_documentation.py:570-571 | every key of a compiled definition keeps its value; the documentation URL is the description only when the definition has none |
| SchemaProperties.ReferencedNotForbidden | factorio_data_raw_json_schema/factorio_documentation.py:538-544 | a name reached through a reference, rather than being a root, is never forbidden |
| SchemaProperties.ToJsonDefinitions | factorio_data_raw_json_schema/factorio_documentation.py:583-596 | the emitted definitions are exactly the names reachable from the included prototypes that are a non-forbidden type or a keyed prototype |
| SchemaProperties.ToJsonProperties | factorio_data_raw_json_schema/factorio_documentation.py:561-567 | the emitted top-level properties have one key per included keyed prototype |
| SchemaProperties.ToJsonFailsOnlyAtPrototypes | factorio_data_raw_json_schema/factorio_documentation.py:560-597 | with the forbidden names settled and no included keyed prototype forbidden, `to_json` succeeds as soon as the prototype definitions do |
| SchemaProperties.IncludedClosedUnderChildren | factorio_data_raw_json_schema/factorio_documentation.py:505-518 | with descendants, the inclusion holds the seeds and every prototype whose base is included |
| LegacySchema.BuiltinTypesAgree | factorio_data_raw_json_schema/schema.py:16-29 | the legacy builtin table and the compiler's builtins agree name by name |
| LegacySchema.BuiltinEntriesAgree | factorio_data_raw_json_schema/schema.py:16-29 | every entry of the legacy table is what the compiler's builtin gives |
| LegacySchema.BuiltinListed | factorio_data_raw_json_schema/schema.py:16-29 | every builtin of the compiler has an entry in the legacy table |
| LegacySchema.NameTypes | factorio_data_raw_json_schema/schema.py:112 | one (name, type) pair per property, in order |
| LegacySchema.NameFlags | factorio_data_raw_json_schema/schema.py:64 | one (name, required) pair per property, in order |
| LegacySchema.RequiredList | factorio_data_raw_json_schema/schema.py:111 | exactly the names of the required properties |
| LegacySchema.RequiredListAppend | factorio_data_raw_json_schema/schema.py:111 | the required names keep declaration order: the list for two runs of properties is the first run's list followed by the second's |
| LegacySchema.RequiredListEmpty | factorio_data_raw_json_schema/schema.py:111-114 | the list is non-empty exactly when some property is required |
| LegacySchema.SelfDefinition | factorio_data_raw_json_schema/schema.py:112-114 | an object whose `properties` map each name to its last type; `required` is present exactly when some property is required |
| LegacySchema.MakeStructDefinition | factorio_data_raw_json_schema/schema.py:110-124 | `allOf` exactly when there is a base, referring to the base first and then the struct's own definition when it has properties; without a base, the struct's own definition when it has properties and `type: object` alone otherwise |
| LegacySchema.UnionTypeDefinition | factorio_data_raw_json_schema/schema.py:127-128 | a definition whose only key is `anyOf`, holding the members |
| LegacySchema.Lineage | factorio_data_raw_json_schema/schema.py:59-62 | the structs from the root base down to the prototype: never empty, ending with the prototype itself |
| LegacySchema.LineageDeepest | factorio_data_raw_json_schema/schema.py:59-62 | a recursion error in `rec` comes with a walk of `fuel + 1` prototypes down base links |
| LegacySchema.BaseWalkDistinct | factorio_data_raw_json_schema/schema.py:59-62 | when base links never loop back, a walk down them names each prototype once |
| LegacySchema.LineageNoRecursion | factorio_data_raw_json_schema/schema.py:59-62 | when base links never loop back, `rec` with at least as much fuel as there are prototypes never fails with a recursion error |
| LegacySchema.PrototypeDefinitionsNoRecursion | factorio_data_raw_json_schema/schema.py:77-80 | the loop over the prototypes then never fails with a recursion error either |
| LegacySchema.TrueKeys | factorio_data_raw_json_schema/schema.py:74 | exactly the keys whose flag is true; non-empty exactly when some flag is |
| LegacySchema.MakePrototypeDefinition | factorio_data_raw_json_schema/schema.py:55-75 | the loop version computes exactly the specified prototype definition |
| LegacySchema.AccumulateGet | factorio_data_raw_json_schema/schema.py:59-64 | after the `update` calls down the lineage, each name holds the type and the flag of its last declaration |
| LegacySchema.TrueKeysUnique | factorio_data_raw_json_schema/schema.py:74 | in a dictionary, the true keys are listed once each |
| LegacySchema.DistinctSorted | factorio_data_raw_json_schema/schema.py:74 | sorting distinct names keeps them distinct |
| LegacySchema.SortedRequired | factorio_data_raw_json_schema/schema.py:73-74 | the `required` list is sorted and lists exactly the names whose flag is true, each once |
| LegacySchema.PrototypeDocumentMembers | factorio_data_raw_json_schema/schema.py:69-75 | a prototype definition holds its description URL and its accumulated properties |
| LegacySchema.PrototypeDocumentRequired | factorio_data_raw_json_schema/schema.py:73-74 | `required` is present exactly when some flag is true, and then lists the true names sorted |
| LegacySchema.PrototypeDefinitionShape | factorio_data_raw_json_schema/schema.py:55-75 | a prototype definition holds every property of its lineage, each with the type of its last declaration, and lists the required names sorted |
| LegacySchema.OwnPropertyWins | factorio_data_raw_json_schema/schema.py:59-64 | a property the prototype declares itself overrides any from its bases |
| LegacySchema.NamesAgree | factorio_data_raw_json_schema/schema.py:63-64 | the properties and the flags are recorded for the same names |
| LegacySchema.PropertyPairs | factorio_data_raw_json_schema/schema.py:38-42 | exactly one top-level property per prototype key |
| LegacySchema.TypePairs | factorio_data_raw_json_schema/schema.py:44-49 | one described definition per type, in order |
| LegacySchema.PrototypePairs | factorio_data_raw_json_schema/schema.py:53 | one (name, prototype) pair per prototype, in order |
| LegacySchema.TypePairsHas | factorio_data_raw_json_schema/schema.py:44-49 | there is a type definition for exactly the type names |
| LegacySchema.MakeDocument | factorio_data_raw_json_schema/schema.py:37-88 | the loop version computes exactly the specified document |
| LegacySchema.PrototypeDefinitionsFailed | factorio_data_raw_json_schema/schema.py:77-80 | the first prototype definition that fails decides the failure |
| LegacySchema.PrototypeDefinitionsKeys | factorio_data_raw_json_schema/schema.py:77-80 | there is a prototype definition for exactly the keyed prototypes, each once |
| LegacySchema.PrototypeDefinitionsGet | factorio_data_raw_json_schema/schema.py:77-80 | the entry of a keyed prototype is the definition built down its own lineage, and that build succeeds |
| LegacySchema.ToJsonValueShape | factorio_data_raw_json_schema/schema.py:82-88 | the definitions are those of every type and every keyed prototype, a prototype's winning a shared name; the properties are one per prototype key |
| LegacySchema.ToJsonValuePrototype | factorio_data_raw_json_schema/schema.py:77-88 | the document's definition of a keyed prototype is the one built down its lineage, even where a type has the same name |
| LegacySchema.ToJsonValueNoRecursion | factorio_data_raw_json_schema/schema.py:37-88 | `to_json_value`, whose depth bound is the number of prototypes, never fails with a recursion error when base links never loop back |
| Extraction.NamedTypeDefinition | factorio_data_raw_json_schema/extraction.py:288-297 | `true` first, then a global type as a reference, then a local type's definition; any other name is an unknown type |
| Extraction.LiteralStringDefinition | factorio_data_raw_json_schema/extraction.py:299-302 | succeeds exactly for a quoted token, and then is a string constant with every surrounding quote stripped |
| Extraction.LiteralRoundTrip | factorio_data_raw_json_schema/extraction.py:299-302 | quoting a string that does not start or end with a quote and transforming it gives back the string |
| Extraction.UnionMembers | factorio_data_raw_json_schema/extraction.py:313-321 | the loop of `union_type` computes exactly the specified splice |
| Extraction.SpliceFailed | factorio_data_raw_json_schema/extraction.py:315-318 | the first member whose `oneOf` is not a list decides the failure |
| Extraction.SpliceMembers | factorio_data_raw_json_schema/extraction.py:313-321 | a union succeeds exactly when every `oneOf` in it is a list; its members are those lists' elements plus the members that have no `oneOf` |
| Extraction.SpliceShallow | factorio_data_raw_json_schema/extraction.py:313-321 | splicing fragments that are themselves shallow succeeds, and leaves no nested `oneOf` |
| Extraction.TransformAll | factorio_data_raw_json_schema/extraction.py:326-327 | one fragment per tuple member, in order, each the member's transform |
| Extraction.TransformAllOk | factorio_data_raw_json_schema/extraction.py:326-327 | a tuple's members transform exactly when each of them does |
| Extraction.TransformShallow | factorio_data_raw_json_schema/extraction.py:281-330 | with shallow local types, a tree transforms exactly when every name in it is known, and unions come out flat |
| Extraction.Transform | factorio_data_raw_json_schema/extraction.py:280-330 | the transformer succeeds only on trees whose every name is known and every literal quoted |
| Extraction.AdhocInteger | factorio_data_raw_json_schema/extraction.py:329-330 | `defines.inventory` becomes an integer type, whatever types are in scope |
| Extraction.ArrayShallow | factorio_data_raw_json_schema/extraction.py:304-311 | an array fragment has a single `oneOf` of plain alternatives |
| Extraction.UnionShallow | factorio_data_raw_json_schema/extraction.py:313-321 | a union of shallow fragments is shallow |
| Extraction.NoOneOf | factorio_data_raw_json_schema/extraction.py:316 | a fragment without a `oneOf` key is appended whole |
| Extraction.ArrayInUnion | factorio_data_raw_json_schema/extraction.py:304-321 | an array inside a union contributes its two alternatives to the union, in place, rather than a nested `oneOf` |
| Extraction.DictionaryShape | factorio_data_raw_json_schema/extraction.py:323-324 | a dictionary checks its keys against the key type and its values against the value type |
| Extraction.TupleShape | factorio_data_raw_json_schema/extraction.py:326-327 | a tuple is an array of exactly as many items as it has members, each checked against its member's type |
| Extraction.LinkName | factorio_data_raw_json_schema/extraction.py:76-83 | a missing link, or one outside the prefix, yields nothing; a link to a page not ending in `.html` fails the assertion; a yielded name has no `/` |
| Extraction.LinkRoundTrip | factorio_data_raw_json_schema/extraction.py:76-83 | the link `prefix + name + ".html" + anchor` yields exactly `name` |
| Extraction.AnchorStart | factorio_data_raw_json_schema/extraction.py:80 | the part of a link before its first `#` holds no `#` |
| Extraction.FileStart | factorio_data_raw_json_schema/extraction.py:80 | the part of a path after its last `/` holds no `/` |
| Extraction.LinkCut | factorio_data_raw_json_schema/extraction.py:80 | every link is a directory up to its last `/`, a file, and an anchor from its first `#` on |
| Extraction.LinkNameParts | factorio_data_raw_json_schema/extraction.py:79-82 | a link inside the prefix fails the assertion exactly when its file does not end in `.html`, and otherwise yields that file without the suffix, whatever the directory and the anchor |
| Extraction.CollectNames | factorio_data_raw_json_schema/extraction.py:75-96 | the loop collects exactly the specified names |
| Extraction.NamesOfFailed | factorio_data_raw_json_schema/extraction.py:75-96 | the first link that fails the assertion decides the failure |
| Extraction.NamesOfMembers | factorio_data_raw_json_schema/extraction.py:75-96 | the names are collected exactly when every link passes, and are exactly the names the links yield |
| Patching.ArrayToJsonDefinition | factorio_data_raw_json_schema/patching.py:14-20 | a single `oneOf` key, with an array of the content first and an object that admits no property second |
| Patching.GetPathAppend | factorio_data_raw_json_schema/patching.py:31-36 | walking a path in two stretches is walking it at once |
| Patching.PatchedDefined | factorio_data_raw_json_schema/patching.py:31-36 | a patch succeeds exactly when the whole path exists and the edit accepts the old value |
| Patching.PatchedReadBack | factorio_data_raw_json_schema/patching.py:31-36 | reading the path back after a patch gives the edit applied to the old value |
| Patching.PatchedKeepsKeys | factorio_data_raw_json_schema/patching.py:31-36 | a patch keeps every key of the schema where it was |
| Patching.PatchedElsewhere | factorio_data_raw_json_schema/patching.py:31-36 | nothing off the patched path changes, in a schema that shares no subtree between paths |
| Patching.Without | factorio_data_raw_json_schema/patching.py:38-39 | every element equal to the key is removed and every other element keeps its count |
| Patching.WithoutAppend | factorio_data_raw_json_schema/patching.py:38-39 | removal keeps the other elements in their order |
| Patching.RemoveFromListValue | factorio_data_raw_json_schema/patching.py:38-39 | defined on lists, objects and strings; the result is a list without the key |
| Patching.AddToListValue | factorio_data_raw_json_schema/patching.py:41-42 | defined on lists only; appends exactly the value |
| Patching.AddToDictValue | factorio_data_raw_json_schema/patching.py:44-45 | defined on objects only; sets the key and keeps every other key |
| Patching.ReplaceInValueValue | factorio_data_raw_json_schema/patching.py:47-51 | defined on strings only; replaces every occurrence of the pattern |
| Patching.RemoveAllConstraintsValue | factorio_data_raw_json_schema/patching.py:24-29 | defined on objects with a description; keeps only the description and the `type` when there is one |
| Patching.SchemaPatcher.constructor | factorio_data_raw_json_schema/patching.py:23 | the patcher holds the given schema |
| Patching.SchemaPatcher.PatchAt | factorio_data_raw_json_schema/patching.py:31-36 | the in-place walk and assignment leave exactly the specified patched schema, and a failed walk leaves the schema as it was; the schema is a tree without sharing |
| Patching.SchemaPatcher.Patch | factorio_data_raw_json_schema/patching.py:31-36 | the path is split at every dot and the schema becomes the specified patched schema; the schema is a tree without sharing |
| Patching.SchemaPatcher.RemoveFromList | factorio_data_raw_json_schema/patching.py:38-39 | the schema becomes the one patched with the list removal |
| Patching.SchemaPatcher.AddToList | factorio_data_raw_json_schema/patching.py:41-42 | the schema becomes the one patched with the list append |
| Patching.SchemaPatcher.AddToDict | factorio_data_raw_json_schema/patching.py:44-45 | the schema becomes the one patched with the key set |
| Patching.SchemaPatcher.ReplaceInValue | factorio_data_raw_json_schema/patching.py:47-51 | the schema becomes the one patched with the string replacement |
| Patching.SchemaPatcher.RemoveAllConstraints | factorio_data_raw_json_schema/patching.py:24-29 | the definition of the type becomes the one stripped of its constraints |
| Patching.AddToListAtPath | factorio_data_raw_json_schema/patching.py:41-42 | fails exactly when the path is missing or does not hold a list; otherwise the list there gains exactly the value at its end |
| Patching.RemoveFromListAtPath | factorio_data_raw_json_schema/patching.py:38-39 | fails exactly when the path is missing or holds a value that cannot be iterated; otherwise the path holds a list without the key |
| Patching.AddToDictAtPath | factorio_data_raw_json_schema/patching.py:44-45 | fails exactly when the path is missing or does not hold an object; otherwise that object has the key set and every other key unchanged |
| Patching.ReplaceInValueAtPath | factorio_data_raw_json_schema/patching.py:47-51 | fails exactly when the path is missing or does not hold a string; otherwise the string has every occurrence replaced |
| Patching.RemoveAllConstraintsAtPath | factorio_data_raw_json_schema/patching.py:24-29 | fails exactly when the definition is missing or has no description; otherwise it keeps only its description and `type` |
| Dicts.Set | factorio_data_raw_json_schema/factorio_documentation.py:407 | Python's `d[k] = v`: an existing key keeps its position, a new one is appended; `k` maps to `v` and every other key is unchanged |
| Dicts.MergeGet | factorio_data_raw_json_schema/factorio_documentation.py:570-571 | Python's dictionary union: a key of `b` takes `b`'s last value, and every other key keeps `a`'s |
| Dicts.Restrict | factorio_data_raw_json_schema/factorio_documentation.py:596 | the filtered dictionary keeps exactly the kept keys, with their values |
| Strings.JoinSplit | factorio_data_raw_json_schema/patching.py:33 | joining `str.split` parts back with the separator gives the original string |
| Strings.SplitJoin | factorio_data_raw_json_schema/patching.py:33 | splitting joined parts that hold no separator gives back the parts |
| Strings.Strip | factorio_data_raw_json_schema/extraction.py:302 | `str.strip(c)` leaves a slice of the string that neither starts nor ends with `c` |
| Strings.SortStrings | factorio_data_raw_json_schema/schema.py:74 | `sorted` gives an ordered permutation of its input |
| Strings.ReplaceBySelf | factorio_data_raw_json_schema/patching.py:48-49 | replacing a pattern by itself changes nothing |
| Strings.ReplaceRemovesChar | factorio_data_raw_json_schema/patching.py:48-49 | replacing a character by text that does not contain it removes every occurrence of it |
| Strings.ReplaceAbsent | factorio_data_raw_json_schema/patching.py:48-49 | a string in which the pattern does not occur is left as it is |

## Left out

- The HTML scraping of the documentation, the grammar and parser of type
  expressions, the crawler, the command line and file output are left out:
  they are I/O and third-party parsing.
  - Of `extraction.py`, only the transformer and the link rule are modelled.
  - Parse trees are given to `Extraction.Transform` as values.
- `print` to standard error is left out. It occurs where a base is neither a
  struct nor a union with a struct member. The model keeps the control flow
  around it, which stops climbing.
- The one-off catalogue of patches in `patching.py:56-134` is left out. It is
  a list of calls with fixed arguments to the helpers that are modelled.
- `make_reference`, the caller's reference-string function, is a parameter
  of the maker and is not modelled further.
- The `__references_needed` side effect is modelled as the set of names
  each compilation records (`Outcome.refs`), not as mutation of a shared
  field.
- `Compiler.Compile`: Python's recursion limit is modelled by a `fuel`
  bound on base climbing. `JsonSchemaMaker` sets it to one more than the
  number of type and prototype names, and `BaseChains.NoRecursionError`
  proves that this never runs out when no base chain loops back. Running
  out is `Crash(RecursionError)`, as Python's `RecursionError` on a cyclic
  chain. Python's fixed limit of about a thousand frames, which an acyclic
  chain of that length would also hit, is not modelled.
- Reachability.ExploreAll: the source's descendant search keeps no record of
  visited names and loops for ever on a cyclic base chain. The model bounds
  the number of pops by `budget`; running out is an error, and an error does
  not by itself show a cycle.
- SchemaMaker.JsonSchemaMaker.Create: the caller chooses `budget`, the bound
  on the descendant search above. A budget too small for the prototypes
  fails with `Crash(Diverges)` where the source terminates, so the model
  does not promise success for every input the source accepts.
- `LegacySchema.Lineage`: the base recursion of `make_prototype_definition`
  is bounded by `fuel` in the same way. `ToJsonValue` sets it to the number
  of prototypes, and `LegacySchema.ToJsonValueNoRecursion` proves that this
  never runs out when no base link loops back.
- Patching.PatchedElsewhere, Patching.SchemaPatcher.PatchAt and
  Patching.SchemaPatcher.Patch: the schema is modelled as a tree of JSON
  values without sharing. In the source one dictionary or list can sit at
  two paths: `schema.py:63` puts a property's type object, not a copy, into
  every definition that inherits it, and `extraction.py:295` returns the same
  local type definition wherever that type is used. An in-place edit such as
  the one at `patching.py:58` then shows through every path that holds the
  object. The model changes only the patched path.
- TypeExpressions.SetPropertyType: `set_property_type` mutates a property
  object that may be shared. The model returns the updated list or struct,
  so aliasing between structs that share a property is not captured.
- `StructMerge.RequiredNames`: following the source's open to-do, a
  property with several names never records a required flag. So "at least
  one of the names must be present" is not enforced, as in the source.
- Extraction.NamedTypeDefinition: only the name `true` is a boolean
  constant. This follows the code; `false` is looked up like any other
  name.
- `SchemaMaker.JsonSchemaMaker.InitPrototypesToInclude`: with no limit,
  every prototype is included, keyed or not, as the code does.
- `LegacySchema.PrototypeDocument`: the description URL of a legacy
  prototype definition uses the `types/` path, as `schema.py` writes it.
- Extraction.TransformAll: the grammar requires at least one tuple member.
  The model accepts any sequence, including the empty one.
- Extraction.Transform: the grammar's unions are binary, so `union_type`
  always receives two items. The model's union node has two children.
- `documentation.py` is the earlier version of the IR in
  `factorio_documentation.py`. Its `accept` methods dispatch to the same
  visitor calls, so the same functions model both; the table cites the
  later file.
- Integers are unbounded, as Python's are; no width is imposed.
