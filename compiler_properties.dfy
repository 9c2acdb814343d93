/** What the compiler promises: how struct hierarchies are climbed, what happens to
    Forbidden properties and members, and how the composite variants are assembled. */
module CompilerProperties {
  import opened Wrappers
  import opened Json
  import opened TypeExpressions
  import opened StructMerge
  import opened Compiler
  import opened Sequences

  /** `s`'s base resolves to `t`: to the struct itself, or to a union whose first struct
      member is `t`. */
  predicate ClimbsTo(m: Maker, s: TypeExpression, t: TypeExpression)
    requires s.Struct?
  {
    && s.base.Some?
    && GetReferableType(m, s.base.value).Ok?
    && var b := GetReferableType(m, s.base.value).value;
       (b.Struct? && t == b) || (b.Union? && FirstStruct(b.members) == Some(t))
  }

  /** Climbing stops at `s`: no base, or one that is neither a struct nor a union with a
      struct member (the source only prints a warning then). */
  predicate StopsAt(m: Maker, s: TypeExpression)
    requires s.Struct?
  {
    || s.base.None?
    || (&& GetReferableType(m, s.base.value).Ok?
        && var b := GetReferableType(m, s.base.value).value;
           !b.Struct? && !(b.Union? && FirstStruct(b.members).Some?))
  }

  /** The struct expressions a hierarchy is made of, base first, found by resolving base names
      alone, without compiling anything. */
  function Chain(m: Maker, fuel: nat, s: TypeExpression): (r: Result<seq<TypeExpression>, Fail>)
    requires s.Struct?
    ensures r.Ok? ==> 1 <= |r.value| <= fuel + 1 && r.value[|r.value| - 1] == s
                      && forall i :: 0 <= i < |r.value| ==> r.value[i].Struct?
    decreases fuel
  {
    if s.base.None? then Ok([s])
    else if fuel == 0 then Err(Crash(RecursionError))
    else
      match GetReferableType(m, s.base.value)
      case Err(e) => Err(e)
      case Ok(b) =>
        if b.Struct? || (b.Union? && FirstStruct(b.members).Some?) then
          var t := if b.Struct? then b else FirstStruct(b.members).value;
          assert t.Struct?;
          match Chain(m, fuel - 1, t)
          case Err(e) => Err(e)
          case Ok(c) => Ok(c + [s])
        else Ok([s])
  }

  /** The chain climbs base by base: it starts where climbing stops and each struct's base
      resolves to the one below it. */
  lemma {:induction false} ChainClimbs(m: Maker, fuel: nat, s: TypeExpression)
    requires s.Struct? && Chain(m, fuel, s).Ok?
    ensures var c := Chain(m, fuel, s).value;
            && StopsAt(m, c[0])
            && forall i :: 0 < i < |c| ==> ClimbsTo(m, c[i], c[i - 1])
    decreases fuel
  {
    var c := Chain(m, fuel, s).value;
    if |c| > 1 {
      var b := GetReferableType(m, s.base.value).value;
      var t := if b.Struct? then b else FirstStruct(b.members).value;
      ChainClimbs(m, fuel - 1, t);
      var c' := Chain(m, fuel - 1, t).value;
      assert c == c' + [s];
      assert ClimbsTo(m, s, t);
      forall i | 0 < i < |c|
        ensures ClimbsTo(m, c[i], c[i - 1])
      {
        if i < |c'| {
          assert c[i] == c'[i] && c[i - 1] == c'[i - 1];
        }
      }
    }
  }

  /** Each struct of a chain visited in turn, base first; the top one with fuel `top`, the
      one below it with `top - 1`, and so on (the fuel left at each height). */
  function VisitLevels(m: Maker, top: int, c: seq<TypeExpression>): Result<seq<VisitedStruct>, Fail>
    requires |c| <= top + 1
    requires forall i :: 0 <= i < |c| ==> c[i].Struct?
    decreases |c|
  {
    if c == [] then Ok([])
    else Then(VisitLevels(m, top - 1, c[..|c| - 1]), VisitLevel(m, top, c[|c| - 1]).result)
  }

  /** A visited level appended to the levels below it; the first failure wins. */
  function Then(below: Result<seq<VisitedStruct>, Fail>, level: Result<VisitedStruct, Fail>): Result<seq<VisitedStruct>, Fail>
  {
    if below.Err? then below
    else if level.Ok? then Ok(below.value + [level.value])
    else Err(level.error)
  }

  lemma HierarchyThen(m: Maker, fuel: nat, s: TypeExpression)
    requires s.Struct?
    ensures Hierarchy(m, fuel, s).result == Then(Below(m, fuel, s).result, VisitLevel(m, fuel, s).result)
  {
  }

  /** The hierarchy of a struct is its chain visited level by level: climbing fails exactly
      as the chain does, before any property is visited; otherwise the levels are visited
      from the base up. */
  lemma {:induction false} HierarchyFollowsChain(m: Maker, fuel: nat, s: TypeExpression)
    requires s.Struct?
    ensures Chain(m, fuel, s).Err? ==> Hierarchy(m, fuel, s).result == Err(Chain(m, fuel, s).error)
    ensures Chain(m, fuel, s).Ok? ==>
              Hierarchy(m, fuel, s).result == VisitLevels(m, fuel, Chain(m, fuel, s).value)
    decreases fuel, 1
  {
    BelowFollowsChain(m, fuel, s);
    HierarchyThen(m, fuel, s);
  }

  /** What lies below a struct is the chain without its top, visited level by level. */
  lemma {:induction false} BelowFollowsChain(m: Maker, fuel: nat, s: TypeExpression)
    requires s.Struct?
    ensures Chain(m, fuel, s).Err? ==> Below(m, fuel, s).result == Err(Chain(m, fuel, s).error)
    ensures Chain(m, fuel, s).Ok? ==>
              var c := Chain(m, fuel, s).value;
              Below(m, fuel, s).result == VisitLevels(m, fuel - 1, c[..|c| - 1])
    decreases fuel, 0
  {
    if s.base.Some? && fuel > 0 && GetReferableType(m, s.base.value).Ok? {
      var b := GetReferableType(m, s.base.value).value;
      if b.Struct? || (b.Union? && FirstStruct(b.members).Some?) {
        var t := if b.Struct? then b else FirstStruct(b.members).value;
        HierarchyFollowsChain(m, fuel - 1, t);
        ClimbOneLevel(m, fuel, s, t);
        if Chain(m, fuel - 1, t).Ok? {
          PrefixOfAppend(Chain(m, fuel - 1, t).value, [s]);
        }
      } else {
        assert [s][..0] == [];
      }
    } else if s.base.None? {
      assert [s][..0] == [];
    }
  }

  /** One step of climbing: below `s` lies the hierarchy of `t`, and the chain of `s` is that
      of `t` with `s` on top. */
  lemma ClimbOneLevel(m: Maker, fuel: nat, s: TypeExpression, t: TypeExpression)
    requires s.Struct? && s.base.Some? && fuel > 0 && GetReferableType(m, s.base.value).Ok?
    requires var b := GetReferableType(m, s.base.value).value;
             && (b.Struct? || (b.Union? && FirstStruct(b.members).Some?))
             && t == if b.Struct? then b else FirstStruct(b.members).value
    ensures t.Struct?
    ensures Below(m, fuel, s) == Hierarchy(m, fuel - 1, t)
    ensures Chain(m, fuel, s) == if Chain(m, fuel - 1, t).Err? then Err(Chain(m, fuel - 1, t).error)
                                 else Ok(Chain(m, fuel - 1, t).value + [s])
  {
  }

  /** `visit_properties` with every type compiling: one visited property per property, in
      order, with its names, compiled type and required flag. */
  lemma {:induction false} VisitPropertiesAllOk(m: Maker, fuel: nat, ps: seq<Property>)
    requires forall i :: 0 <= i < |ps| ==> Compile(m, fuel, ps[i].typ).result.Ok?
    ensures VisitProperties(m, fuel, ps).result.Ok?
    ensures var vs := VisitProperties(m, fuel, ps).result.value;
            && |vs| == |ps|
            && forall i :: 0 <= i < |ps| ==>
                 vs[i] == VisitedProperty(ps[i].names, Compile(m, fuel, ps[i].typ).result.value, ps[i].required)
    decreases |ps|
  {
    if ps != [] {
      VisitPropertiesAllOk(m, fuel, ps[1..]);
      var vs := VisitProperties(m, fuel, ps).result.value;
      forall i | 0 < i < |ps|
        ensures vs[i] == VisitedProperty(ps[i].names, Compile(m, fuel, ps[i].typ).result.value, ps[i].required)
      {
        assert ps[1..][i - 1] == ps[i];
      }
    }
  }

  /** A property whose type is Forbidden is as if it were not declared: the visited
      properties are those of the list without it. */
  lemma {:induction false} ForbiddenPropertyDropped(m: Maker, fuel: nat, ps: seq<Property>, i: nat)
    requires i < |ps| && Compile(m, fuel, ps[i].typ).result == Err(Forbidden)
    ensures VisitProperties(m, fuel, ps).result == VisitProperties(m, fuel, ps[..i] + ps[i + 1..]).result
    decreases i
  {
    var without := ps[..i] + ps[i + 1..];
    if i == 0 {
      assert without == ps[1..];
      var rest := VisitProperties(m, fuel, ps[1..]).result;
      if rest.Ok? {
        assert [] + rest.value == rest.value;
      }
    } else {
      ForbiddenPropertyDropped(m, fuel, ps[1..], i - 1);
      assert without[0] == ps[0];
      assert without[1..] == ps[1..][..i - 1] + ps[1..][i..];
    }
  }

  /** Union and tuple members compile in order, and the first failing member's failure
      (a Forbidden one included) is the result of the whole. */
  lemma {:induction false} CompileEachFirstFailure(m: Maker, fuel: nat, ts: seq<TypeExpression>, i: nat)
    requires i < |ts| && Compile(m, fuel, ts[i]).result.Err?
    requires forall j :: 0 <= j < i ==> Compile(m, fuel, ts[j]).result.Ok?
    ensures CompileEach(m, fuel, ts).result == Err(Compile(m, fuel, ts[i]).result.error)
    decreases i
  {
    if i > 0 {
      forall j | 0 <= j < i - 1
        ensures Compile(m, fuel, ts[1..][j]).result.Ok?
      {
        assert ts[1..][j] == ts[j + 1];
      }
      CompileEachFirstFailure(m, fuel, ts[1..], i - 1);
    }
  }

  /** When every member compiles, the members' fragments in order. */
  lemma {:induction false} CompileEachAllOk(m: Maker, fuel: nat, ts: seq<TypeExpression>)
    requires forall j :: 0 <= j < |ts| ==> Compile(m, fuel, ts[j]).result.Ok?
    ensures CompileEach(m, fuel, ts).result.Ok?
    ensures forall j :: 0 <= j < |ts| ==> CompileEach(m, fuel, ts).result.value[j] == Compile(m, fuel, ts[j]).result.value
    decreases |ts|
  {
    if ts != [] {
      CompileEachAllOk(m, fuel, ts[1..]);
      forall j | 0 < j < |ts|
        ensures CompileEach(m, fuel, ts).result.value[j] == Compile(m, fuel, ts[j]).result.value
      {
        assert ts[1..][j - 1] == ts[j];
      }
    }
  }

  /** Union and tuple members fail with Forbidden exactly when the first member that fails
      fails with Forbidden. */
  lemma {:induction false} CompileEachForbidden(m: Maker, fuel: nat, ts: seq<TypeExpression>)
    ensures CompileEach(m, fuel, ts).result == Err(Forbidden) <==>
            exists i :: 0 <= i < |ts| && Compile(m, fuel, ts[i]).result == Err(Forbidden)
                        && forall j :: 0 <= j < i ==> Compile(m, fuel, ts[j]).result.Ok?
    decreases |ts|
  {
    if ts != [] {
      if Compile(m, fuel, ts[0]).result.Ok? {
        CompileEachForbidden(m, fuel, ts[1..]);
        if CompileEach(m, fuel, ts).result == Err(Forbidden) {
          var i :| 0 <= i < |ts[1..]| && Compile(m, fuel, ts[1..][i]).result == Err(Forbidden)
                   && forall j :: 0 <= j < i ==> Compile(m, fuel, ts[1..][j]).result.Ok?;
          forall j | 0 <= j < i + 1
            ensures Compile(m, fuel, ts[j]).result.Ok?
          {
            if j > 0 {
              assert ts[j] == ts[1..][j - 1];
            }
          }
          assert ts[i + 1] == ts[1..][i];
        }
        if exists i :: 0 <= i < |ts| && Compile(m, fuel, ts[i]).result == Err(Forbidden)
                       && forall j :: 0 <= j < i ==> Compile(m, fuel, ts[j]).result.Ok? {
          var i :| 0 <= i < |ts| && Compile(m, fuel, ts[i]).result == Err(Forbidden)
                   && forall j :: 0 <= j < i ==> Compile(m, fuel, ts[j]).result.Ok?;
          CompileEachFirstFailure(m, fuel, ts, i);
        }
      }
    }
  }

  /** A reference to a forbidden type is Forbidden. */
  lemma ForbiddenReference(m: Maker, fuel: nat, name: string)
    requires name in m.forbidden && name in m.typesByName
    ensures Compile(m, fuel, Ref(name)).result == Err(Forbidden)
  {
  }

  /** Forbidden goes up through every container: an array is Forbidden exactly when its
      content is, a dictionary when its keys are or its keys compile and its values are, and
      a union or tuple when its first failing member is (a union is not narrowed to its
      other members). */
  lemma ForbiddenPropagates(m: Maker, fuel: nat, e: TypeExpression, k: TypeExpression, v: TypeExpression, ts: seq<TypeExpression>)
    ensures Compile(m, fuel, Array(e)).result == Err(Forbidden) <==> Compile(m, fuel, e).result == Err(Forbidden)
    ensures Compile(m, fuel, Dictionary(k, v)).result == Err(Forbidden) <==>
            Compile(m, fuel, k).result == Err(Forbidden) || (Compile(m, fuel, k).result.Ok? && Compile(m, fuel, v).result == Err(Forbidden))
    ensures Compile(m, fuel, Union(ts)).result == Err(Forbidden) <==>
            exists i :: 0 <= i < |ts| && Compile(m, fuel, ts[i]).result == Err(Forbidden)
                        && forall j :: 0 <= j < i ==> Compile(m, fuel, ts[j]).result.Ok?
    ensures Compile(m, fuel, Tuple(ts)).result == Err(Forbidden) <==>
            exists i :: 0 <= i < |ts| && Compile(m, fuel, ts[i]).result == Err(Forbidden)
                        && forall j :: 0 <= j < i ==> Compile(m, fuel, ts[j]).result.Ok?
  {
    CompileEachForbidden(m, fuel, ts);
  }
}
