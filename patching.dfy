/** The JSON helpers of the patching step: the array encoding and the dot-path editing
    operations applied to a finished schema. */
module Patching {
  import opened Wrappers
  import opened Dicts
  import opened Json
  import opened Strings
  import opened Sequences

  /** Empty arrays are serialised as `{}` instead of `[]`: an array definition accepts either
      an array of the compiled content or an object with no properties at all. */
  function ArrayToJsonDefinition(content: JsonDict): (r: JsonDict)
    ensures Keys(r) == ["oneOf"]
    ensures Get(r, "oneOf") == Some(Arr([ArrayOf(content), EmptyObject()]))
  {
    [("oneOf", Arr([ArrayOf(content), EmptyObject()]))]
  }

  /** The first alternative: an array whose items all match `content`. */
  function ArrayOf(content: JsonDict): Json
  {
    Obj([("type", Str("array")), ("items", Obj(content))])
  }

  /** The second alternative: an object that admits no property. */
  function EmptyObject(): Json
  {
    Obj([("type", Str("object")), ("additionalProperties", Bool(false))])
  }

  // ---------------------------------------------------------------------------------------
  // Paths

  /** `d[p0][p1]...`: the value reached by looking the keys up one after the other; `None`
      where a key is missing or the value is not an object (a `KeyError` or `TypeError`). */
  function GetPath(j: Json, path: seq<string>): Option<Json>
    decreases |path|
  {
    if path == [] then Some(j)
    else if j.Obj? && Get(j.fields, path[0]).Some? then GetPath(Get(j.fields, path[0]).value, path[1..])
    else None
  }

  /** Walking a path in two stretches is walking it at once. */
  lemma {:induction false} GetPathAppend(j: Json, p: seq<string>, q: seq<string>)
    ensures GetPath(j, p + q) == if GetPath(j, p).Some? then GetPath(GetPath(j, p).value, q) else None
    decreases |p|
  {
    if p == [] {
      assert p + q == q;
    } else {
      assert (p + q)[0] == p[0] && (p + q)[1..] == p[1..] + q;
      if j.Obj? && Get(j.fields, p[0]).Some? {
        GetPathAppend(Get(j.fields, p[0]).value, p[1..], q);
      }
    }
  }

  /** The schema after `d[last] = fn(d[last])` where `d` is reached by all segments but the
      last: every object on the way is rebuilt with its key set to the rebuilt child, so the
      result is what the in-place assignment leaves behind. `None` where the walk or the read
      of the last key fails, or `fn` fails on the old value. */
  function Patched(j: Json, parts: seq<string>, fn: Json -> Option<Json>): Option<Json>
    requires |parts| >= 1
    decreases |parts|
  {
    if !j.Obj? || Get(j.fields, parts[0]).None? then None
    else
      var child := Get(j.fields, parts[0]).value;
      var v := if |parts| == 1 then fn(child) else Patched(child, parts[1..], fn);
      if v.None? then None else Some(Obj(Set(j.fields, parts[0], v.value)))
  }

  /** A patch succeeds exactly when the whole path exists and `fn` accepts the old value. */
  lemma {:induction false} PatchedDefined(j: Json, parts: seq<string>, fn: Json -> Option<Json>)
    requires |parts| >= 1
    ensures Patched(j, parts, fn).Some? <==> GetPath(j, parts).Some? && fn(GetPath(j, parts).value).Some?
    decreases |parts|
  {
    if j.Obj? && Get(j.fields, parts[0]).Some? && |parts| > 1 {
      PatchedDefined(Get(j.fields, parts[0]).value, parts[1..], fn);
    }
  }

  /** Reading the path back after a patch gives `fn` of the old value. */
  lemma {:induction false} PatchedReadBack(j: Json, parts: seq<string>, fn: Json -> Option<Json>)
    requires |parts| >= 1 && Patched(j, parts, fn).Some?
    ensures GetPath(j, parts).Some?
    ensures GetPath(Patched(j, parts, fn).value, parts) == fn(GetPath(j, parts).value)
    decreases |parts|
  {
    var child := Get(j.fields, parts[0]).value;
    if |parts| > 1 {
      PatchedReadBack(child, parts[1..], fn);
    }
  }

  /** A patch keeps the keys of the patched object where they were. */
  lemma PatchedKeepsKeys(j: Json, parts: seq<string>, fn: Json -> Option<Json>)
    requires |parts| >= 1 && Patched(j, parts, fn).Some?
    ensures j.Obj? && Patched(j, parts, fn).value.Obj?
    ensures Keys(Patched(j, parts, fn).value.fields) == Keys(j.fields)
  {
    assert Keys(j.fields) + [] == Keys(j.fields);
  }

  /** Two paths part ways: they differ at some position both of them have. */
  predicate Diverge(p: seq<string>, q: seq<string>)
    decreases |p|
  {
    p != [] && q != [] && (p[0] != q[0] || Diverge(p[1..], q[1..]))
  }

  /** Nothing off the patched path changes. */
  lemma {:induction false} PatchedElsewhere(j: Json, parts: seq<string>, fn: Json -> Option<Json>, q: seq<string>)
    requires |parts| >= 1 && Patched(j, parts, fn).Some?
    requires Diverge(parts, q)
    ensures GetPath(Patched(j, parts, fn).value, q) == GetPath(j, q)
    decreases |parts|
  {
    var child := Get(j.fields, parts[0]).value;
    var r := Patched(j, parts, fn).value;
    if q[0] == parts[0] {
      PatchedElsewhere(child, parts[1..], fn, q[1..]);
    }
  }

  // ---------------------------------------------------------------------------------------
  // The edits handed to `patch`

  /** `[v for v in x if v != key]`: every element equal to `key` removed. */
  function Without(s: seq<Json>, key: Json): (r: seq<Json>)
    ensures key !in r
    ensures forall y :: y != key ==> multiset(r)[y] == multiset(s)[y]
  {
    if s == [] then []
    else
      assert s == [s[0]] + s[1..];
      if s[0] == key then Without(s[1..], key) else [s[0]] + Without(s[1..], key)
  }

  /** Removing keeps the other elements in their order: it distributes over concatenation. */
  lemma {:induction false} WithoutAppend(a: seq<Json>, b: seq<Json>, key: Json)
    ensures Without(a + b, key) == Without(a, key) + Without(b, key)
    decreases |a|
  {
    if a == [] {
      assert a + b == b;
    } else {
      assert a + b != [] && (a + b)[0] == a[0] && (a + b)[1..] == a[1..] + b;
      WithoutAppend(a[1..], b, key);
      if a[0] == key {
        assert Without(a + b, key) == Without(a[1..] + b, key);
        assert Without(a, key) == Without(a[1..], key);
      } else {
        assert Without(a + b, key) == [a[0]] + Without(a[1..] + b, key);
        assert Without(a, key) == [a[0]] + Without(a[1..], key);
        assert [a[0]] + (Without(a[1..], key) + Without(b, key)) == [a[0]] + Without(a[1..], key) + Without(b, key);
      }
    }
  }

  /** The one-character strings of a string, as iterating over it yields them. */
  function Chars(s: string): (r: seq<Json>)
    ensures |r| == |s|
    ensures forall i :: 0 <= i < |s| ==> r[i] == Str([s[i]])
  {
    if s == [] then [] else [Str([s[0]])] + Chars(s[1..])
  }

  /** `remove_from_list`'s edit. Iterating over an object yields its keys and over a string its
      characters, so both turn into lists; any other value is not iterable. */
  function RemoveFromListValue(key: string, x: Json): (r: Option<Json>)
    ensures r.Some? <==> x.Arr? || x.Obj? || x.Str?
    ensures r.Some? ==> r.value.Arr? && Str(key) !in r.value.items
    ensures x.Arr? ==> r == Some(Arr(Without(x.items, Str(key))))
  {
    match x
    case Arr(items) => Some(Arr(Without(items, Str(key))))
    case Obj(fields) => Some(Arr(Without(Strs(Keys(fields)), Str(key))))
    case Str(s) => Some(Arr(Without(Chars(s), Str(key))))
    case _ => None
  }

  /** `add_to_list`'s edit: list concatenation, defined on lists only. */
  function AddToListValue(value: Json, x: Json): (r: Option<Json>)
    ensures r.Some? <==> x.Arr?
    ensures r.Some? ==> (&& r.value.Arr? && |r.value.items| == |x.items| + 1
                         && r.value.items[..|x.items|] == x.items && r.value.items[|x.items|] == value)
  {
    if x.Arr? then
      PrefixOfAppend(x.items, [value]);
      Some(Arr(x.items + [value]))
    else None
  }

  /** `add_to_dict`'s edit: `{**x, key: value}`, defined on objects only. */
  function AddToDictValue(key: string, value: Json, x: Json): (r: Option<Json>)
    ensures r.Some? <==> x.Obj?
    ensures r.Some? ==> && r.value.Obj?
                        && Get(r.value.fields, key) == Some(value)
                        && (forall k :: k != key ==> Get(r.value.fields, k) == Get(x.fields, k))
                        && Keys(r.value.fields) == Keys(x.fields) + (if Get(x.fields, key).Some? then [] else [key])
  {
    if x.Obj? then Some(Obj(Set(x.fields, key, value))) else None
  }

  /** `replace_in_value`'s edit: `str.replace`, defined on strings only. */
  function ReplaceInValueValue(pattern: string, replacement: string, x: Json): (r: Option<Json>)
    ensures r.Some? <==> x.Str?
    ensures r.Some? ==> r.value == Str(ReplaceAll(x.s, pattern, replacement))
  {
    if x.Str? then Some(Str(ReplaceAll(x.s, pattern, replacement))) else None
  }

  /** `remove_all_constraints`'s edit: only the description is kept, and the `type` when there
      is one. */
  function RemoveAllConstraintsValue(x: Json): (r: Option<Json>)
    ensures r.Some? <==> x.Obj? && Get(x.fields, "description").Some?
    ensures r.Some? ==> && r.value.Obj?
                        && Keys(r.value.fields) == ["description"] + (if Get(x.fields, "type").Some? then ["type"] else [])
                        && forall k :: Get(r.value.fields, k) == if k == "description" || k == "type" then Get(x.fields, k) else None
  {
    if x.Obj? && Get(x.fields, "description").Some? then
      var d := [("description", Get(x.fields, "description").value)];
      if Get(x.fields, "type").Some? then Some(Obj(Set(d, "type", Get(x.fields, "type").value)))
      else Some(Obj(d))
    else None
  }

  function RemoveFromListFn(key: string): Json -> Option<Json>
  {
    x => RemoveFromListValue(key, x)
  }

  function AddToListFn(value: Json): Json -> Option<Json>
  {
    x => AddToListValue(value, x)
  }

  function AddToDictFn(key: string, value: Json): Json -> Option<Json>
  {
    x => AddToDictValue(key, value, x)
  }

  function ReplaceInValueFn(pattern: string, replacement: string): Json -> Option<Json>
  {
    x => ReplaceInValueValue(pattern, replacement, x)
  }

  function RemoveAllConstraintsFn(): Json -> Option<Json>
  {
    x => RemoveAllConstraintsValue(x)
  }

  // ---------------------------------------------------------------------------------------
  // The patcher

  /** One more step along a path: from the value at the first `i` parts to the value at the
      first `i + 1`. */
  lemma DescendStep(j: Json, parts: seq<string>, i: nat, d: Json)
    requires i < |parts| && GetPath(j, parts[..i]) == Some(d)
    ensures GetPath(j, parts[..i + 1]) == if d.Obj? && Get(d.fields, parts[i]).Some? then Get(d.fields, parts[i]) else None
  {
    GetPathAppend(j, parts[..i], [parts[i]]);
    PrefixGrow(parts, i);
    assert parts[..i + 1] == parts[..i] + [parts[i]];
  }

  /** A path whose prefix is missing is missing. */
  lemma MissingPrefix(j: Json, parts: seq<string>, i: nat)
    requires i <= |parts| && GetPath(j, parts[..i]) == None
    ensures GetPath(j, parts) == None
  {
    GetPathAppend(j, parts[..i], parts[i..]);
    assert parts[..i] + parts[i..] == parts;
  }

  /** Rebuilding one level of the spine: the object at the first `i` parts, with its child
      replaced by the patched child, is the patch from that object. */
  lemma RebuildStep(j: Json, parts: seq<string>, i: nat, t: JsonDict, v: Json, fn: Json -> Option<Json>)
    requires i < |parts| - 1 && GetPath(j, parts[..i]) == Some(Obj(t))
    requires GetPath(j, parts[..i + 1]).Some? && Patched(GetPath(j, parts[..i + 1]).value, parts[i + 1..], fn) == Some(v)
    ensures Patched(Obj(t), parts[i..], fn) == Some(Obj(Set(t, parts[i], v)))
  {
    DescendStep(j, parts, i, Obj(t));
    assert parts[i..][1..] == parts[i + 1..];
  }

  /** The schema under repair; every helper edits it in place through `PatchAt`. A failed
      edit raises in the source before anything is assigned, so it leaves the schema as it
      was. */
  class SchemaPatcher {
    var schema: Json

    constructor (schema: Json)
      ensures this.schema == schema
    {
      this.schema := schema;
    }

    /** The inner `patch`, on a path already split into segments: walk down to the object
        holding the last segment, then assign `fn` of its old value. The walk keeps the
        objects it passes so that the assignment can be carried back up to the root. */
    method PatchAt(parts: seq<string>, fn: Json -> Option<Json>) returns (ok: bool)
      requires |parts| >= 1
      modifies this
      ensures ok == Patched(old(schema), parts, fn).Some?
      ensures schema == if ok then Patched(old(schema), parts, fn).value else old(schema)
    {
      PatchedDefined(schema, parts, fn);
      var d := schema;
      var trail: seq<JsonDict> := [];
      var i := 0;
      assert parts[..0] == [];
      while i < |parts| - 1
        invariant schema == old(schema)
        invariant 0 <= i <= |parts| - 1 && |trail| == i
        invariant GetPath(schema, parts[..i]) == Some(d)
        invariant forall k :: 0 <= k < i ==> GetPath(schema, parts[..k]) == Some(Obj(trail[k]))
      {
        DescendStep(schema, parts, i, d);
        if !d.Obj? || Get(d.fields, parts[i]).None? {
          MissingPrefix(schema, parts, i + 1);
          return false;
        }
        trail := trail + [d.fields];
        d := Get(d.fields, parts[i]).value;
        i := i + 1;
      }
      var last := parts[i];
      DescendStep(schema, parts, i, d);
      assert parts[..i + 1] == parts;
      if !d.Obj? || Get(d.fields, last).None? {
        return false;
      }
      var nv := fn(Get(d.fields, last).value);
      if nv.None? {
        return false;
      }
      var v := Obj(Set(d.fields, last, nv.value));
      assert Patched(d, parts[i..], fn) == Some(v);
      while i > 0
        invariant schema == old(schema)
        invariant 0 <= i <= |parts| - 1
        invariant GetPath(schema, parts[..i]).Some?
        invariant Patched(GetPath(schema, parts[..i]).value, parts[i..], fn) == Some(v)
      {
        i := i - 1;
        RebuildStep(schema, parts, i, trail[i], v, fn);
        v := Obj(Set(trail[i], parts[i], v));
      }
      assert parts[0..] == parts;
      schema := v;
      ok := true;
    }

    /** `patch(path, fn)`: the path is split at every dot. */
    method Patch(path: string, fn: Json -> Option<Json>) returns (ok: bool)
      modifies this
      ensures ok == Patched(old(schema), Split(path, '.'), fn).Some?
      ensures schema == if ok then Patched(old(schema), Split(path, '.'), fn).value else old(schema)
    {
      ok := PatchAt(Split(path, '.'), fn);
    }

    method RemoveFromList(path: string, key: string) returns (ok: bool)
      modifies this
      ensures ok == Patched(old(schema), Split(path, '.'), RemoveFromListFn(key)).Some?
      ensures schema == if ok then Patched(old(schema), Split(path, '.'), RemoveFromListFn(key)).value else old(schema)
    {
      ok := Patch(path, RemoveFromListFn(key));
    }

    method AddToList(path: string, value: Json) returns (ok: bool)
      modifies this
      ensures ok == Patched(old(schema), Split(path, '.'), AddToListFn(value)).Some?
      ensures schema == if ok then Patched(old(schema), Split(path, '.'), AddToListFn(value)).value else old(schema)
    {
      ok := Patch(path, AddToListFn(value));
    }

    method AddToDict(path: string, key: string, value: Json) returns (ok: bool)
      modifies this
      ensures ok == Patched(old(schema), Split(path, '.'), AddToDictFn(key, value)).Some?
      ensures schema == if ok then Patched(old(schema), Split(path, '.'), AddToDictFn(key, value)).value else old(schema)
    {
      ok := Patch(path, AddToDictFn(key, value));
    }

    method ReplaceInValue(path: string, pattern: string, replacement: string) returns (ok: bool)
      modifies this
      ensures ok == Patched(old(schema), Split(path, '.'), ReplaceInValueFn(pattern, replacement)).Some?
      ensures schema == if ok then Patched(old(schema), Split(path, '.'), ReplaceInValueFn(pattern, replacement)).value
                        else old(schema)
    {
      ok := Patch(path, ReplaceInValueFn(pattern, replacement));
    }

    /** `remove_all_constraints(type_name)` assigns `schema["definitions"][type_name]` directly,
        without splitting the name at dots. */
    method RemoveAllConstraints(typeName: string) returns (ok: bool)
      modifies this
      ensures ok == Patched(old(schema), ["definitions", typeName], RemoveAllConstraintsFn()).Some?
      ensures schema == if ok then Patched(old(schema), ["definitions", typeName], RemoveAllConstraintsFn()).value
                        else old(schema)
    {
      ok := PatchAt(["definitions", typeName], RemoveAllConstraintsFn());
    }
  }

  /** What the helpers promise at the patched path: `add_to_list` appends exactly one value,
      `remove_from_list` leaves no element equal to the key, `add_to_dict` sets exactly one
      key, and each fails exactly when the path is missing or holds a value of the wrong
      kind. */
  lemma AddToListAtPath(j: Json, path: string, value: Json)
    ensures var parts := Split(path, '.');
            && (Patched(j, parts, AddToListFn(value)).Some? <==> GetPath(j, parts).Some? && GetPath(j, parts).value.Arr?)
            && (Patched(j, parts, AddToListFn(value)).Some? ==>
                  GetPath(Patched(j, parts, AddToListFn(value)).value, parts) == Some(Arr(GetPath(j, parts).value.items + [value])))
  {
    var parts := Split(path, '.');
    PatchedDefined(j, parts, AddToListFn(value));
    if Patched(j, parts, AddToListFn(value)).Some? {
      PatchedReadBack(j, parts, AddToListFn(value));
    }
  }

  lemma RemoveFromListAtPath(j: Json, path: string, key: string)
    ensures var parts := Split(path, '.');
            && (Patched(j, parts, RemoveFromListFn(key)).Some? <==>
                  GetPath(j, parts).Some? && (GetPath(j, parts).value.Arr? || GetPath(j, parts).value.Obj? || GetPath(j, parts).value.Str?))
            && (Patched(j, parts, RemoveFromListFn(key)).Some? ==>
                  var after := GetPath(Patched(j, parts, RemoveFromListFn(key)).value, parts);
                  after.Some? && after.value.Arr? && Str(key) !in after.value.items)
  {
    var parts := Split(path, '.');
    PatchedDefined(j, parts, RemoveFromListFn(key));
    if Patched(j, parts, RemoveFromListFn(key)).Some? {
      PatchedReadBack(j, parts, RemoveFromListFn(key));
    }
  }

  lemma AddToDictAtPath(j: Json, path: string, key: string, value: Json)
    ensures var parts := Split(path, '.');
            && (Patched(j, parts, AddToDictFn(key, value)).Some? <==> GetPath(j, parts).Some? && GetPath(j, parts).value.Obj?)
            && (Patched(j, parts, AddToDictFn(key, value)).Some? ==>
                  var after := GetPath(Patched(j, parts, AddToDictFn(key, value)).value, parts);
                  && after.Some? && after.value.Obj?
                  && Get(after.value.fields, key) == Some(value)
                  && forall k :: k != key ==> Get(after.value.fields, k) == Get(GetPath(j, parts).value.fields, k))
  {
    var parts := Split(path, '.');
    PatchedDefined(j, parts, AddToDictFn(key, value));
    if Patched(j, parts, AddToDictFn(key, value)).Some? {
      PatchedReadBack(j, parts, AddToDictFn(key, value));
    }
  }

  lemma ReplaceInValueAtPath(j: Json, path: string, pattern: string, replacement: string)
    ensures var parts := Split(path, '.');
            && (Patched(j, parts, ReplaceInValueFn(pattern, replacement)).Some? <==> GetPath(j, parts).Some? && GetPath(j, parts).value.Str?)
            && (Patched(j, parts, ReplaceInValueFn(pattern, replacement)).Some? ==>
                  GetPath(Patched(j, parts, ReplaceInValueFn(pattern, replacement)).value, parts)
                  == Some(Str(ReplaceAll(GetPath(j, parts).value.s, pattern, replacement))))
  {
    var parts := Split(path, '.');
    PatchedDefined(j, parts, ReplaceInValueFn(pattern, replacement));
    if Patched(j, parts, ReplaceInValueFn(pattern, replacement)).Some? {
      PatchedReadBack(j, parts, ReplaceInValueFn(pattern, replacement));
    }
  }

  lemma RemoveAllConstraintsAtPath(j: Json, typeName: string)
    ensures var parts := ["definitions", typeName];
            && (Patched(j, parts, RemoveAllConstraintsFn()).Some? <==>
                  GetPath(j, parts).Some? && GetPath(j, parts).value.Obj? && Get(GetPath(j, parts).value.fields, "description").Some?)
            && (Patched(j, parts, RemoveAllConstraintsFn()).Some? ==>
                  var after := GetPath(Patched(j, parts, RemoveAllConstraintsFn()).value, parts);
                  var before := GetPath(j, parts).value.fields;
                  && after.Some? && after.value.Obj?
                  && Keys(after.value.fields) == ["description"] + (if Get(before, "type").Some? then ["type"] else [])
                  && forall k :: Get(after.value.fields, k) == if k == "description" || k == "type" then Get(before, k) else None)
  {
    var parts := ["definitions", typeName];
    PatchedDefined(j, parts, RemoveAllConstraintsFn());
    if Patched(j, parts, RemoveAllConstraintsFn()).Some? {
      PatchedReadBack(j, parts, RemoveAllConstraintsFn());
    }
  }
}
