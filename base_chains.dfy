/** How deep compiling climbs through bases, and why the depth the maker allows is enough:
    every `RecursionError` the compiler raises comes with a chain of bases, one climb per
    unit of fuel, and on documentation whose base chains never loop back such a chain visits
    each type or prototype name at most once. */
module BaseChains {
  import opened Wrappers
  import opened Sequences
  import opened TypeExpressions
  import opened StructMerge
  import opened Compiler

  /** What a base name stands for, whether or not it is forbidden: the type's definition,
      else the prototype's `make_definition`. */
  function Resolve(types: map<string, TypeExpression>, prototypes: map<string, Prototype>, name: string): Option<TypeExpression>
  {
    if name in types then Some(types[name])
    else if name in prototypes then Some(MakeDefinition(prototypes[name]))
    else None
  }

  /** The struct `rec` climbs into from a resolved base: the base itself, or a union's first
      struct member. */
  function ClimbTarget(b: TypeExpression): Option<TypeExpression>
  {
    if b.Struct? then Some(b)
    else if b.Union? then FirstStruct(b.members)
    else None
  }

  /** The bases of the structs compiling `t` climbs from: those written in `t` itself and in
      its members, properties and custom properties; a reference is not followed. */
  function InlineBases(t: TypeExpression): set<string>
    decreases t, 1
  {
    match t
    case Union(members) => EachBases(members)
    case Tuple(members) => EachBases(members)
    case Array(content) => InlineBases(content)
    case Dictionary(keys, values) => InlineBases(keys) + InlineBases(values)
    case Struct(base, properties, overriddenProperties, customProperties) =>
      (if base.Some? then {base.value} else {})
      + PropertyBases(properties) + PropertyBases(overriddenProperties)
      + (if customProperties.Some? then InlineBases(customProperties.value) else {})
    case _ => {}
  }

  function EachBases(ts: seq<TypeExpression>): set<string>
    decreases ts, 1
  {
    if ts == [] then {} else InlineBases(ts[0]) + EachBases(ts[1..])
  }

  function PropertyBases(ps: seq<Property>): set<string>
    decreases ps, 1
  {
    if ps == [] then {} else InlineBases(ps[0].typ) + PropertyBases(ps[1..])
  }

  /** One climb: `next` is a base met while visiting the struct that `name` resolves to. */
  ghost predicate ClimbEdge(types: map<string, TypeExpression>, prototypes: map<string, Prototype>, name: string, next: string)
  {
    && Resolve(types, prototypes, name).Some?
    && ClimbTarget(Resolve(types, prototypes, name).value).Some?
    && next in InlineBases(ClimbTarget(Resolve(types, prototypes, name).value).value)
  }

  /** A chain of climbs. */
  ghost predicate IsClimb(types: map<string, TypeExpression>, prototypes: map<string, Prototype>, p: seq<string>)
  {
    |p| >= 1 && forall i :: 0 <= i < |p| - 1 ==> ClimbEdge(types, prototypes, p[i], p[i + 1])
  }

  /** No chain of climbs comes back to the name it started from. */
  ghost predicate BasesAcyclic(types: map<string, TypeExpression>, prototypes: map<string, Prototype>)
  {
    forall p :: IsClimb(types, prototypes, p) && |p| >= 2 ==> p[0] != p[|p| - 1]
  }

  // ---------------------------------------------------------------------------------------
  // Failures other than the recursion limit

  lemma KeyErrorIsNotRecursion(name: string)
    ensures Crash("KeyError: " + name) != Crash(RecursionError)
  {
    assert RecursionError[0] == 'R';
    assert ("KeyError: " + name)[0] == 'K';
  }

  lemma AssertionIsNotRecursion()
    ensures Crash(ForbiddenNotType) != Crash(RecursionError)
    ensures Crash(TwoCustomLevels) != Crash(RecursionError)
  {
    assert RecursionError[0] == 'R';
    assert ForbiddenNotType[0] == 'a';
    assert TwoCustomLevels[0] == 'a';
  }

  /** A successful `get_referable_type` resolves the name as `Resolve` does. */
  lemma ReferableResolves(m: Maker, name: string)
    requires GetReferableType(m, name).Ok?
    ensures Resolve(m.typesByName, m.prototypesByName, name) == Some(GetReferableType(m, name).value)
  {
  }

  lemma ReferableNotRecursion(m: Maker, name: string)
    ensures GetReferableType(m, name) != Err(Crash(RecursionError))
  {
    KeyErrorIsNotRecursion(name);
    AssertionIsNotRecursion();
  }

  // ---------------------------------------------------------------------------------------
  // A recursion error comes with a chain of `fuel + 1` climbs

  lemma {:induction false} CompileDeepest(m: Maker, fuel: nat, t: TypeExpression) returns (p: seq<string>)
    requires Compile(m, fuel, t).result == Err(Crash(RecursionError))
    ensures |p| == fuel + 1 && IsClimb(m.typesByName, m.prototypesByName, p) && p[0] in InlineBases(t)
    decreases fuel, t, 2
  {
    match t
    case Builtin(name) =>
      KeyErrorIsNotRecursion(name);
      assert false;
    case LiteralBool(_) => assert false;
    case LiteralString(_) => assert false;
    case LiteralInteger(_) => assert false;
    case Ref(name) =>
      AssertionIsNotRecursion();
      assert false;
    case Union(members) => p := EachDeepest(m, fuel, members);
    case Tuple(members) => p := EachDeepest(m, fuel, members);
    case Array(content) => p := CompileDeepest(m, fuel, content);
    case Dictionary(keys, values) =>
      if Compile(m, fuel, keys).result.Err? {
        p := CompileDeepest(m, fuel, keys);
      } else {
        p := CompileDeepest(m, fuel, values);
      }
    case Struct(_, _, _, _) =>
      var h := Hierarchy(m, fuel, t);
      if h.result.Ok? {
        AssertionIsNotRecursion();
        assert false;
      } else {
        p := HierarchyDeepest(m, fuel, t);
      }
  }

  lemma {:induction false} EachDeepest(m: Maker, fuel: nat, ts: seq<TypeExpression>) returns (p: seq<string>)
    requires CompileEach(m, fuel, ts).result == Err(Crash(RecursionError))
    ensures |p| == fuel + 1 && IsClimb(m.typesByName, m.prototypesByName, p) && p[0] in EachBases(ts)
    decreases fuel, ts, 2
  {
    if ts == [] {
      assert false;
    } else if Compile(m, fuel, ts[0]).result.Err? {
      p := CompileDeepest(m, fuel, ts[0]);
    } else {
      p := EachDeepest(m, fuel, ts[1..]);
    }
  }

  lemma {:induction false} PropertiesDeepest(m: Maker, fuel: nat, ps: seq<Property>) returns (p: seq<string>)
    requires VisitProperties(m, fuel, ps).result == Err(Crash(RecursionError))
    ensures |p| == fuel + 1 && IsClimb(m.typesByName, m.prototypesByName, p) && p[0] in PropertyBases(ps)
    decreases fuel, ps, 2
  {
    if ps == [] {
      assert false;
    } else if Compile(m, fuel, ps[0].typ).result.Err? && Compile(m, fuel, ps[0].typ).result.error.Crash? {
      p := CompileDeepest(m, fuel, ps[0].typ);
    } else {
      p := PropertiesDeepest(m, fuel, ps[1..]);
    }
  }

  lemma {:induction false} BelowDeepest(m: Maker, fuel: nat, s: TypeExpression) returns (p: seq<string>)
    requires s.Struct? && Below(m, fuel, s).result == Err(Crash(RecursionError))
    ensures s.base.Some? && |p| == fuel + 1 && IsClimb(m.typesByName, m.prototypesByName, p) && p[0] == s.base.value
    decreases fuel, s, 0
  {
    if s.base.None? {
      assert false;
    } else if fuel == 0 {
      p := [s.base.value];
    } else {
      var name := s.base.value;
      ReferableNotRecursion(m, name);
      var b := GetReferableType(m, name).value;
      ReferableResolves(m, name);
      var target := ClimbTarget(b);
      if target.None? {
        assert false;
      } else {
        var q := HierarchyDeepest(m, fuel - 1, target.value);
        p := [name] + q;
        assert ClimbEdge(m.typesByName, m.prototypesByName, name, q[0]);
        forall i | 0 <= i < |p| - 1
          ensures ClimbEdge(m.typesByName, m.prototypesByName, p[i], p[i + 1])
        {
          if i > 0 {
            assert p[i] == q[i - 1] && p[i + 1] == q[i];
          }
        }
      }
    }
  }

  lemma {:induction false} HierarchyDeepest(m: Maker, fuel: nat, s: TypeExpression) returns (p: seq<string>)
    requires s.Struct? && Hierarchy(m, fuel, s).result == Err(Crash(RecursionError))
    ensures |p| == fuel + 1 && IsClimb(m.typesByName, m.prototypesByName, p) && p[0] in InlineBases(s)
    decreases fuel, s, 1
  {
    if Below(m, fuel, s).result.Err? {
      p := BelowDeepest(m, fuel, s);
    } else {
      p := LevelDeepest(m, fuel, s);
    }
  }

  lemma {:induction false} LevelDeepest(m: Maker, fuel: nat, s: TypeExpression) returns (p: seq<string>)
    requires s.Struct? && VisitLevel(m, fuel, s).result == Err(Crash(RecursionError))
    ensures |p| == fuel + 1 && IsClimb(m.typesByName, m.prototypesByName, p) && p[0] in InlineBases(s)
    decreases fuel, s, 0
  {
    if VisitProperties(m, fuel, s.properties).result.Err? {
      p := PropertiesDeepest(m, fuel, s.properties);
    } else if VisitProperties(m, fuel, s.overriddenProperties).result.Err? {
      p := PropertiesDeepest(m, fuel, s.overriddenProperties);
    } else {
      p := CompileDeepest(m, fuel, s.customProperties.value);
    }
  }

  // ---------------------------------------------------------------------------------------
  // Without loops, a chain of climbs is short

  /** On documentation without loops, no name occurs twice in a chain of climbs. */
  lemma ClimbDistinct(types: map<string, TypeExpression>, prototypes: map<string, Prototype>, p: seq<string>)
    requires BasesAcyclic(types, prototypes) && IsClimb(types, prototypes, p)
    ensures forall i, j :: 0 <= i < j < |p| ==> p[i] != p[j]
  {
    forall i, j | 0 <= i < j < |p|
      ensures p[i] != p[j]
    {
      var q := p[i..j + 1];
      forall k | 0 <= k < |q| - 1
        ensures ClimbEdge(types, prototypes, q[k], q[k + 1])
      {
        assert q[k] == p[i + k] && q[k + 1] == p[i + k + 1];
      }
      assert IsClimb(types, prototypes, q);
      assert q[0] == p[i] && q[|q| - 1] == p[j];
    }
  }

  /** The number of distinct type and prototype names. */
  function NameCount(types: map<string, TypeExpression>, prototypes: map<string, Prototype>): nat
  {
    |types.Keys + prototypes.Keys|
  }

  /** Every climb but the last starts from a type or prototype name, each at most once. */
  lemma ClimbBound(types: map<string, TypeExpression>, prototypes: map<string, Prototype>, p: seq<string>)
    requires BasesAcyclic(types, prototypes) && IsClimb(types, prototypes, p)
    ensures |p| - 1 <= NameCount(types, prototypes)
  {
    ClimbDistinct(types, prototypes, p);
    var q := p[..|p| - 1];
    forall i | 0 <= i < |q|
      ensures q[i] in types.Keys + prototypes.Keys
    {
      assert ClimbEdge(types, prototypes, p[i], p[i + 1]);
    }
    DistinctWithin(q, types.Keys + prototypes.Keys);
  }

  /** Compiling on documentation whose base chains never loop back, with more fuel than there
      are type and prototype names, never reaches the recursion limit. */
  lemma NoRecursionError(m: Maker, fuel: nat, t: TypeExpression)
    requires BasesAcyclic(m.typesByName, m.prototypesByName)
    requires fuel > NameCount(m.typesByName, m.prototypesByName)
    ensures Compile(m, fuel, t).result != Err(Crash(RecursionError))
  {
    if Compile(m, fuel, t).result == Err(Crash(RecursionError)) {
      var p := CompileDeepest(m, fuel, t);
      ClimbBound(m.typesByName, m.prototypesByName, p);
      assert false;
    }
  }

  /** The other direction: a loop through a struct's own base is a recursion error for every
      fuel, unless something else fails first. */
  lemma {:induction false} SelfBaseRecurses(m: Maker, fuel: nat, name: string, s: TypeExpression)
    requires s.Struct? && s.base == Some(name) && s.properties == [] && s.overriddenProperties == []
    requires s.customProperties.None?
    requires GetReferableType(m, name) == Ok(s)
    ensures Below(m, fuel, s).result == Err(Crash(RecursionError))
    decreases fuel
  {
    if fuel > 0 {
      SelfBaseRecurses(m, fuel - 1, name, s);
    }
  }
}
