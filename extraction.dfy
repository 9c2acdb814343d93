/** The part of the documentation scraper that does not touch HTML: `TypeExpressionTransformer`,
    which turns the parse tree of a type expression written in the documentation into a JSON
    Schema definition, and the rule that turns a documentation link into a type or prototype
    name. */
module Extraction {
  import opened Wrappers
  import opened Dicts
  import opened Json
  import opened Strings
  import opened Sequences
  import Patching
  import LegacySchema

  /** The parse tree of a type expression, one constructor per rule of the grammar. */
  datatype ParseTree =
    | NamedType(name: string)
    | LiteralString(token: string)
    | ArrayType(content: ParseTree)
    | UnionType(left: ParseTree, right: ParseTree)
    | DictionaryType(key: ParseTree, value: ParseTree)
    | TupleType(items: seq<ParseTree>)
    | AdhocType

  /** The assertions of the transformer and of the link rule that can fail. */
  datatype Failure =
    | UnknownType(name: string)
    | UnquotedLiteral(token: string)
    | OneOfNotList
    | NotHtml(link: string)

  /** The type definitions local to the page being read, by name. */
  type Locals = Dict<LegacySchema.TypeDefinition>

  // ---------------------------------------------------------------------------------------
  // The transformer

  /** `named_type`: the literal `true` first, then a type of the documentation (a
      reference), then a local definition; any other name is an error. */
  function NamedTypeDefinition(globals: set<string>, locals: Locals, name: string): (r: Result<JsonDict, Failure>)
    ensures r.Err? <==> name != "true" && name !in globals && Get(locals, name).None?
    ensures r.Err? ==> r.error == UnknownType(name)
    ensures r.Ok? && name != "true" && name in globals ==> Obj(r.value) == LegacySchema.RefTo(name)
    ensures r.Ok? && name != "true" && name !in globals ==> r.value == Get(locals, name).value.definition
  {
    if name == "true" then Ok([("type", Str("boolean")), ("const", Bool(true))])
    else if name in globals then Ok([("$ref", Str(LegacySchema.DefinitionRef(name)))])
    else match Get(locals, name)
      case Some(local) => Ok(local.definition)
      case None => Err(UnknownType(name))
  }

  /** The token of a literal starts and ends with a double quote. */
  predicate Quoted(token: string)
  {
    |token| >= 1 && token[0] == '"' && token[|token| - 1] == '"'
  }

  /** `literal_string`: the token must be quoted; the constant is the token with every
      leading and trailing quote removed. */
  function LiteralStringDefinition(token: string): (r: Result<JsonDict, Failure>)
    ensures r.Ok? <==> Quoted(token)
    ensures r.Err? ==> r.error == UnquotedLiteral(token)
    ensures r.Ok? ==> Get(r.value, "type") == Some(Str("string"))
    ensures r.Ok? ==> Get(r.value, "const") == Some(Str(Strip(token, '"')))
  {
    if Quoted(token) then
      assert "type"[0] != "const"[0];
      Ok([("type", Str("string")), ("const", Str(Strip(token, '"')))])
    else Err(UnquotedLiteral(token))
  }

  /** `item.get("oneOf")` when it is not `None`: a JSON `null` counts as absent. */
  function OneOf(d: JsonDict): Option<Json>
  {
    match Get(d, "oneOf")
    case Some(v) => if v.Null? then None else Some(v)
    case None => None
  }

  /** The members of a union: every operand with a `oneOf` is replaced by that list's
      members, every other operand is kept; a `oneOf` that is not a list fails. */
  function Splice(items: seq<JsonDict>): Result<seq<Json>, Failure>
  {
    if items == [] then Ok([])
    else
      match Splice(items[..|items| - 1])
      case Err(e) => Err(e)
      case Ok(members) =>
        var item := items[|items| - 1];
        match OneOf(item)
        case Some(alternatives) =>
          if alternatives.Arr? then Ok(members + alternatives.items) else Err(OneOfNotList)
        case None => Ok(members + [Obj(item)])
  }

  /** `union_type`, with its loop over the operands. */
  method UnionMembers(items: seq<JsonDict>) returns (r: Result<seq<Json>, Failure>)
    ensures r == Splice(items)
  {
    var members: seq<Json> := [];
    var i := 0;
    while i < |items|
      invariant 0 <= i <= |items|
      invariant Splice(items[..i]) == Ok(members)
    {
      PrefixGrow(items, i);
      var item := items[i];
      var alternatives := OneOf(item);
      if alternatives.Some? {
        if !alternatives.value.Arr? {
          SpliceFailed(items, i + 1);
          return Err(OneOfNotList);
        }
        members := members + alternatives.value.items;
      } else {
        members := members + [Obj(item)];
      }
      i := i + 1;
    }
    Whole(items);
    r := Ok(members);
  }

  /** The whole transformer, bottom-up: children are transformed left to right and the
      first failure is raised. A tree transforms only when every name in it is known and
      every literal in it quoted. */
  function Transform(globals: set<string>, locals: Locals, t: ParseTree): (r: Result<JsonDict, Failure>)
    ensures r.Ok? ==> Known(globals, locals, t)
    decreases t
  {
    match t
    case NamedType(name) => NamedTypeDefinition(globals, locals, name)
    case LiteralString(token) => LiteralStringDefinition(token)
    case ArrayType(content) =>
      var c := Transform(globals, locals, content);
      if c.Err? then Err(c.error) else Ok(Patching.ArrayToJsonDefinition(c.value))
    case UnionType(left, right) =>
      var l := Transform(globals, locals, left);
      if l.Err? then Err(l.error)
      else
        var r := Transform(globals, locals, right);
        if r.Err? then Err(r.error)
        else
          var members := Splice([l.value, r.value]);
          if members.Err? then Err(members.error) else Ok([("oneOf", Arr(members.value))])
    case DictionaryType(key, value) =>
      var k := Transform(globals, locals, key);
      if k.Err? then Err(k.error)
      else
        var v := Transform(globals, locals, value);
        if v.Err? then Err(v.error)
        else Ok([("type", Str("object")), ("additionalProperties", Obj(v.value)), ("propertyNames", Obj(k.value))])
    case TupleType(items) =>
      var ds := TransformAll(globals, locals, items);
      if ds.Err? then Err(ds.error)
      else Ok([("type", Str("array")), ("items", Arr(Objs(ds.value))), ("minItems", Int(|ds.value|)), ("maxItems", Int(|ds.value|))])
    case AdhocType => Ok([("type", Str("integer"))])
  }

  /** The children of a tuple, left to right. */
  function TransformAll(globals: set<string>, locals: Locals, ts: seq<ParseTree>): (r: Result<seq<JsonDict>, Failure>)
    ensures r.Ok? ==> |r.value| == |ts|
    ensures r.Ok? ==> forall i :: 0 <= i < |ts| ==> Transform(globals, locals, ts[i]) == Ok(r.value[i])
    decreases ts
  {
    if ts == [] then Ok([])
    else
      match Transform(globals, locals, ts[0])
      case Err(e) => Err(e)
      case Ok(d) =>
        var ds := TransformAll(globals, locals, ts[1..]);
        if ds.Err? then Err(ds.error)
        else
          assert forall i :: 1 <= i < |ts| ==> ts[i] == ts[1..][i - 1];
          Ok([d] + ds.value)
  }

  /** `defines.inventory` stands for an integer, whatever types are in scope. */
  lemma AdhocInteger(globals: set<string>, locals: Locals)
    ensures Transform(globals, locals, AdhocType) == Ok([("type", Str("integer"))])
    ensures Get(Transform(globals, locals, AdhocType).value, "type") == Some(Str("integer"))
  {
  }

  /** Once a prefix of the operands fails, the whole splice fails with the same error. */
  lemma {:induction false} SpliceFailed(items: seq<JsonDict>, i: nat)
    requires i <= |items| && Splice(items[..i]).Err?
    ensures Splice(items) == Splice(items[..i])
    decreases |items| - i
  {
    if i == |items| {
      Whole(items);
    } else {
      PrefixOfPrefix(items, |items| - 1, i);
      SpliceFailed(items[..|items| - 1], i);
    }
  }

  /** A quoted string with no quote at either end of its contents reads back as that
      string. */
  lemma LiteralRoundTrip(s: string)
    requires s == [] || (s[0] != '"' && s[|s| - 1] != '"')
    ensures var token := "\"" + s + "\"";
            && LiteralStringDefinition(token).Ok?
            && Get(LiteralStringDefinition(token).value, "const") == Some(Str(s))
  {
    var token := "\"" + s + "\"";
    assert Quoted(token);
    if s == [] {
      assert LeadingCount(token[2..], '"') == 0;
      assert LeadingCount(token[1..], '"') == 1;
      assert LeadingCount(token, '"') == 2;
      assert token[2..] == [];
    } else {
      assert token[1..][0] == s[0];
      assert LeadingCount(token, '"') == 1;
      var t := token[1..];
      assert t == s + "\"";
      assert t[..|t| - 1] == s;
      assert TrailingCount(t[..|t| - 1], '"') == 0;
      assert TrailingCount(t, '"') == 1;
    }
  }

  // ---------------------------------------------------------------------------------------
  // Unions are never nested

  /** A value that is not an object with a `oneOf`. */
  predicate Plain(j: Json)
  {
    !(j.Obj? && OneOf(j.fields).Some?)
  }

  /** A definition whose `oneOf`, if any, is a list of plain alternatives. */
  predicate Shallow(d: JsonDict)
  {
    OneOf(d).Some? ==> OneOf(d).value.Arr? && forall m :: m in OneOf(d).value.items ==> Plain(m)
  }

  predicate ShallowLocals(locals: Locals)
  {
    forall i :: 0 <= i < |locals| ==> Shallow(locals[i].1.definition)
  }

  /** Every name of the tree is known and every literal quoted. */
  predicate Known(globals: set<string>, locals: Locals, t: ParseTree)
    decreases t
  {
    match t
    case NamedType(name) => name == "true" || name in globals || Get(locals, name).Some?
    case LiteralString(token) => Quoted(token)
    case ArrayType(content) => Known(globals, locals, content)
    case UnionType(left, right) => Known(globals, locals, left) && Known(globals, locals, right)
    case DictionaryType(key, value) => Known(globals, locals, key) && Known(globals, locals, value)
    case TupleType(items) => forall u :: u in items ==> Known(globals, locals, u)
    case AdhocType => true
  }

  /** Splicing succeeds on shallow operands, and leaves no alternative with a `oneOf`. */
  lemma {:induction false} SpliceShallow(items: seq<JsonDict>)
    requires forall i :: 0 <= i < |items| ==> Shallow(items[i])
    ensures Splice(items).Ok?
    ensures forall m :: m in Splice(items).value ==> Plain(m)
    decreases |items|
  {
    if items != [] {
      var init := items[..|items| - 1];
      assert forall i :: 0 <= i < |init| ==> init[i] == items[i];
      SpliceShallow(init);
    }
  }

  /** The members of a union, one by one: a spliced operand contributes its alternatives, any
      other operand itself. */
  lemma {:induction false} SpliceMembers(items: seq<JsonDict>)
    ensures Splice(items).Ok? <==> forall i :: 0 <= i < |items| && OneOf(items[i]).Some? ==> OneOf(items[i]).value.Arr?
    ensures Splice(items).Ok? ==>
              forall m :: m in Splice(items).value <==>
                exists i :: 0 <= i < |items| &&
                  if OneOf(items[i]).Some? then m in OneOf(items[i]).value.items else m == Obj(items[i])
    decreases |items|
  {
    if items != [] {
      var init := items[..|items| - 1];
      var last := items[|items| - 1];
      assert forall i :: 0 <= i < |init| ==> init[i] == items[i];
      SpliceMembers(init);
      if Splice(items).Ok? {
        forall m | m in Splice(items).value
          ensures exists i :: 0 <= i < |items| &&
                    if OneOf(items[i]).Some? then m in OneOf(items[i]).value.items else m == Obj(items[i])
        {
          if m !in Splice(init).value {
            assert if OneOf(last).Some? then m in OneOf(last).value.items else m == Obj(last);
          } else {
            var i :| 0 <= i < |init| &&
                     if OneOf(init[i]).Some? then m in OneOf(init[i]).value.items else m == Obj(init[i]);
            assert init[i] == items[i];
          }
        }
      }
    }
  }

  lemma {:induction false} TransformAllOk(globals: set<string>, locals: Locals, ts: seq<ParseTree>)
    ensures TransformAll(globals, locals, ts).Ok? <==> forall i :: 0 <= i < |ts| ==> Transform(globals, locals, ts[i]).Ok?
    decreases ts
  {
    if ts != [] {
      TransformAllOk(globals, locals, ts[1..]);
      assert forall i :: 1 <= i < |ts| ==> ts[i] == ts[1..][i - 1];
    }
  }

  /** With shallow local definitions, the transformer succeeds exactly on the trees whose
      names are known and whose literals are quoted, and every union it builds is flat: an
      operand that is itself a union, or an array with its empty-object alternative, is
      spliced into the enclosing `oneOf`. */
  lemma {:induction false} TransformShallow(globals: set<string>, locals: Locals, t: ParseTree)
    requires ShallowLocals(locals)
    ensures Transform(globals, locals, t).Ok? <==> Known(globals, locals, t)
    ensures Transform(globals, locals, t).Ok? ==> Shallow(Transform(globals, locals, t).value)
    decreases t
  {
    var r := Transform(globals, locals, t);
    match t
    case NamedType(name) =>
      if name != "true" && name !in globals && Get(locals, name).Some? {
        var i := GetEntry(locals, name);
      } else if r.Ok? {
        NoOneOf(r.value);
      }
    case LiteralString(token) =>
      if r.Ok? {
        NoOneOf(r.value);
      }
    case ArrayType(content) =>
      TransformShallow(globals, locals, content);
      if r.Ok? {
        ArrayShallow(Transform(globals, locals, content).value);
      }
    case UnionType(left, right) =>
      TransformShallow(globals, locals, left);
      TransformShallow(globals, locals, right);
      var l, r := Transform(globals, locals, left), Transform(globals, locals, right);
      if l.Ok? && r.Ok? {
        UnionShallow(l.value, r.value);
      }
    case DictionaryType(key, value) =>
      TransformShallow(globals, locals, key);
      TransformShallow(globals, locals, value);
      if r.Ok? {
        NoOneOf(r.value);
      }
    case TupleType(items) =>
      forall i | 0 <= i < |items|
        ensures Transform(globals, locals, items[i]).Ok? <==> Known(globals, locals, items[i])
      {
        TransformShallow(globals, locals, items[i]);
      }
      TransformAllOk(globals, locals, items);
      if r.Ok? {
        NoOneOf(r.value);
      }
    case AdhocType =>
      NoOneOf(r.value);
  }

  lemma ArrayShallow(c: JsonDict)
    ensures Shallow(Patching.ArrayToJsonDefinition(c))
  {
    NoOneOf(Patching.ArrayOf(c).fields);
    NoOneOf(Patching.EmptyObject().fields);
  }

  lemma UnionShallow(l: JsonDict, r: JsonDict)
    requires Shallow(l) && Shallow(r)
    ensures Splice([l, r]).Ok? && Shallow([("oneOf", Arr(Splice([l, r]).value))])
  {
    SpliceShallow([l, r]);
    GetFirst([("oneOf", Arr(Splice([l, r]).value))], 0, "oneOf");
  }

  /** The keys the transformer writes, other than `oneOf` itself, all differ from `oneOf`. */
  lemma NoOneOf(d: JsonDict)
    requires forall i :: 0 <= i < |d| ==> d[i].0 in {"type", "const", "$ref", "items", "additionalProperties", "propertyNames", "minItems", "maxItems"}
    ensures OneOf(d) == None
  {
    assert "type"[0] != "oneOf"[0] && "const"[0] != "oneOf"[0] && "$ref"[0] != "oneOf"[0] && "items"[0] != "oneOf"[0];
    assert "additionalProperties"[0] != "oneOf"[0] && "propertyNames"[0] != "oneOf"[0];
    assert "minItems"[0] != "oneOf"[0] && "maxItems"[0] != "oneOf"[0];
    GetAbsent(d, "oneOf");
  }

  // ---------------------------------------------------------------------------------------
  // Shapes

  /** An array accepts its content as an array or, being serialised empty as `{}`, an object
      without properties; inside a union, both alternatives are spliced. */
  lemma ArrayInUnion(globals: set<string>, locals: Locals, content: ParseTree, other: ParseTree)
    requires Transform(globals, locals, UnionType(ArrayType(content), other)).Ok?
    ensures Transform(globals, locals, content).Ok?
    ensures var c := Transform(globals, locals, content).value;
            var u := Transform(globals, locals, UnionType(ArrayType(content), other)).value;
            && OneOf(u).Some? && OneOf(u).value.Arr?
            && |OneOf(u).value.items| >= 2
            && OneOf(u).value.items[..2] == [Patching.ArrayOf(c), Patching.EmptyObject()]
  {
    var c := Transform(globals, locals, content).value;
    var a := Patching.ArrayToJsonDefinition(c);
    var o := Transform(globals, locals, other).value;
    var alternatives := [Patching.ArrayOf(c), Patching.EmptyObject()];
    assert [a, o][..1] == [a] && [a, o][..2][..1] == [a] && [a, o][..2] == [a, o];
    assert OneOf(a) == Some(Arr(alternatives));
    assert [a][..|[a]| - 1] == [] && Splice([]) == Ok([]);
    assert [] + alternatives == alternatives;
    assert Splice([a]) == Ok(alternatives);
    var members := Splice([a, o]).value;
    assert members[..2] == alternatives;
    var u := Transform(globals, locals, UnionType(ArrayType(content), other)).value;
    assert u == [("oneOf", Arr(members))];
    GetFirst(u, 0, "oneOf");
  }

  /** A dictionary's keys are checked against the key type and its values against the value
      type. */
  lemma DictionaryShape(globals: set<string>, locals: Locals, key: ParseTree, value: ParseTree)
    requires Transform(globals, locals, DictionaryType(key, value)).Ok?
    ensures var d := Transform(globals, locals, DictionaryType(key, value)).value;
            && Get(d, "type") == Some(Str("object"))
            && Get(d, "propertyNames") == Some(Obj(Transform(globals, locals, key).value))
            && Get(d, "additionalProperties") == Some(Obj(Transform(globals, locals, value).value))
  {
    var d := Transform(globals, locals, DictionaryType(key, value)).value;
    assert "type"[0] != "propertyNames"[0] && "type"[0] != "additionalProperties"[0] && "additionalProperties"[0] != "propertyNames"[0];
    GetFirst(d, 0, "type");
    GetFirst(d, 1, "additionalProperties");
    GetFirst(d, 2, "propertyNames");
  }

  /** A tuple is an array of exactly as many items as the tuple has members, each checked
      against its member's type. */
  lemma TupleShape(globals: set<string>, locals: Locals, items: seq<ParseTree>)
    requires Transform(globals, locals, TupleType(items)).Ok?
    ensures var d := Transform(globals, locals, TupleType(items)).value;
            && Get(d, "type") == Some(Str("array"))
            && Get(d, "minItems") == Some(Int(|items|))
            && Get(d, "maxItems") == Some(Int(|items|))
            && Get(d, "items").Some? && Get(d, "items").value.Arr? && |Get(d, "items").value.items| == |items|
            && forall i :: 0 <= i < |items| ==> Get(d, "items").value.items[i] == Obj(Transform(globals, locals, items[i]).value)
  {
    var d := Transform(globals, locals, TupleType(items)).value;
    assert "type"[0] != "items"[0] && "type"[0] != "minItems"[0] && "type"[0] != "maxItems"[0];
    assert "items"[0] != "minItems"[0] && "items"[0] != "maxItems"[0] && "minItems"[1] != "maxItems"[1];
    GetFirst(d, 0, "type");
    GetFirst(d, 1, "items");
    GetFirst(d, 2, "minItems");
    GetFirst(d, 3, "maxItems");
  }

  // ---------------------------------------------------------------------------------------
  // Links to names

  /** The links of the type index and of the prototype index. */
  const TypesPrefix := "types/"
  const PrototypesPrefix := "prototypes/"

  /** One link of an index page: a link outside `prefix` (or an anchor without `href`) names
      nothing; otherwise the part before `#`, after its last `/`, must be an `.html` file
      and its name without the suffix is the name. */
  function LinkName(prefix: string, href: Option<string>): (r: Result<Option<string>, Failure>)
    ensures href.None? || !StartsWith(href.value, prefix) ==> r == Ok(None)
    ensures r.Err? ==> r == Err(NotHtml(href.value))
    ensures r.Ok? && r.value.Some? ==> '/' !in r.value.value
  {
    if href.None? || !StartsWith(href.value, prefix) then Ok(None)
    else
      var page := Split(href.value, '#')[0];
      var segments := Split(page, '/');
      var file := segments[|segments| - 1];
      if EndsWith(file, ".html") then
        assert forall c :: c in file[..|file| - 5] ==> c in file;
        Ok(Some(file[..|file| - 5]))
      else Err(NotHtml(href.value))
  }

  /** The link to a page reads back as the page's name, with or without an anchor. */
  lemma LinkRoundTrip(prefix: string, name: string, anchor: string)
    requires |prefix| >= 1 && prefix[|prefix| - 1] == '/' && '#' !in prefix
    requires '/' !in name && '#' !in name
    requires anchor == [] || anchor[0] == '#'
    ensures LinkName(prefix, Some(prefix + name + ".html" + anchor)) == Ok(Some(name))
  {
    var file := name + ".html";
    var link := prefix + name + ".html" + anchor;
    assert link == (prefix + file) + anchor;
    PageOfLink(prefix + file, anchor);
    LastSegment(prefix, file);
    assert link[..|prefix|] == prefix;
    assert EndsWith(file, ".html");
    assert file[..|file| - 5] == name;
  }

  /** The part of a link before its anchor. */
  lemma PageOfLink(page: string, anchor: string)
    requires '#' !in page
    requires anchor == [] || anchor[0] == '#'
    ensures Split(page + anchor, '#')[0] == page
  {
    if anchor == [] {
      assert page + anchor == page;
      SplitPart(page, '#');
    } else {
      assert page + anchor == page + ['#'] + anchor[1..];
      SplitPartThenSep(page, '#', anchor[1..]);
    }
  }

  /** The last segment of a path in a directory. */
  lemma LastSegment(prefix: string, file: string)
    requires |prefix| >= 1 && prefix[|prefix| - 1] == '/' && '/' !in file
    ensures var segments := Split(prefix + file, '/'); segments[|segments| - 1] == file
  {
    assert prefix + file == prefix[..|prefix| - 1] + ['/'] + file;
    SplitLast(prefix[..|prefix| - 1], '/', file);
  }

  /** A link cut into the directory up to its last `/`, the file after it, and the anchor
      from its first `#` on. */
  ghost predicate LinkParts(link: string, dir: string, file: string, anchor: string)
  {
    && link == dir + file + anchor
    && '#' !in dir && '#' !in file && '/' !in file
    && (dir == [] || dir[|dir| - 1] == '/')
    && (anchor == [] || anchor[0] == '#')
  }

  /** Where the anchor of a link starts. */
  function AnchorStart(s: string): (n: nat)
    ensures n <= |s| && '#' !in s[..n] && (n < |s| ==> s[n] == '#')
  {
    if s == [] || s[0] == '#' then 0
    else
      var n := 1 + AnchorStart(s[1..]);
      assert s[..n] == [s[0]] + s[1..][..n - 1];
      n
  }

  /** Where the file of a path starts: just after its last `/`. */
  function FileStart(s: string): (n: nat)
    ensures n <= |s| && '/' !in s[n..] && (n > 0 ==> s[n - 1] == '/')
  {
    if s == [] then 0
    else if s[|s| - 1] == '/' then |s|
    else
      var n := FileStart(s[..|s| - 1]);
      assert s[n..] == s[..|s| - 1][n..] + [s[|s| - 1]];
      n
  }

  /** Every link can be cut that way. */
  lemma LinkCut(link: string) returns (dir: string, file: string, anchor: string)
    ensures LinkParts(link, dir, file, anchor)
  {
    var a := AnchorStart(link);
    var page := link[..a];
    anchor := link[a..];
    var f := FileStart(page);
    dir := page[..f];
    file := page[f..];
    assert page == dir + file;
    assert link == page + anchor;
  }

  /** What a link inside `prefix` names: it fails exactly when its file is not an `.html`
      page, and otherwise names that file without the suffix, whatever the directory and
      the anchor. */
  lemma LinkNameParts(prefix: string, link: string, dir: string, file: string, anchor: string)
    requires StartsWith(link, prefix) && LinkParts(link, dir, file, anchor)
    ensures LinkName(prefix, Some(link)).Err? <==> !EndsWith(file, ".html")
    ensures LinkName(prefix, Some(link)).Ok? ==> LinkName(prefix, Some(link)) == Ok(Some(file[..|file| - 5]))
  {
    assert '#' !in dir + file;
    assert link == (dir + file) + anchor;
    PageOfLink(dir + file, anchor);
    if dir == [] {
      assert dir + file == file;
      SplitPart(file, '/');
    } else {
      LastSegment(dir, file);
    }
  }

  /** `set(gen())` over the links of an index page: the first link that is not an `.html`
      page fails. */
  function NamesOf(prefix: string, hrefs: seq<Option<string>>): Result<set<string>, Failure>
  {
    if hrefs == [] then Ok({})
    else
      match NamesOf(prefix, hrefs[..|hrefs| - 1])
      case Err(e) => Err(e)
      case Ok(names) =>
        match LinkName(prefix, hrefs[|hrefs| - 1])
        case Err(e) => Err(e)
        case Ok(name) => Ok(if name.Some? then names + {name.value} else names)
  }

  /** `extract_all_type_names` and `extract_all_prototype_names`, with their loop over the
      links of the index page. */
  method CollectNames(prefix: string, hrefs: seq<Option<string>>) returns (r: Result<set<string>, Failure>)
    ensures r == NamesOf(prefix, hrefs)
  {
    var names: set<string> := {};
    var i := 0;
    while i < |hrefs|
      invariant 0 <= i <= |hrefs|
      invariant NamesOf(prefix, hrefs[..i]) == Ok(names)
    {
      PrefixGrow(hrefs, i);
      var name := LinkName(prefix, hrefs[i]);
      if name.Err? {
        NamesOfFailed(prefix, hrefs, i + 1);
        return Err(name.error);
      }
      if name.value.Some? {
        names := names + {name.value.value};
      }
      i := i + 1;
    }
    Whole(hrefs);
    r := Ok(names);
  }

  /** Once a prefix of the links fails, the whole page fails with the same error. */
  lemma {:induction false} NamesOfFailed(prefix: string, hrefs: seq<Option<string>>, i: nat)
    requires i <= |hrefs| && NamesOf(prefix, hrefs[..i]).Err?
    ensures NamesOf(prefix, hrefs) == NamesOf(prefix, hrefs[..i])
    decreases |hrefs| - i
  {
    if i == |hrefs| {
      Whole(hrefs);
    } else {
      PrefixOfPrefix(hrefs, |hrefs| - 1, i);
      NamesOfFailed(prefix, hrefs[..|hrefs| - 1], i);
    }
  }

  /** The names of a page: it fails exactly when some link fails, and otherwise holds the
      name of each link that has one, and nothing else. */
  lemma {:induction false} NamesOfMembers(prefix: string, hrefs: seq<Option<string>>)
    ensures NamesOf(prefix, hrefs).Ok? <==> forall i :: 0 <= i < |hrefs| ==> LinkName(prefix, hrefs[i]).Ok?
    ensures NamesOf(prefix, hrefs).Ok? ==>
              forall n :: n in NamesOf(prefix, hrefs).value <==> exists i :: 0 <= i < |hrefs| && LinkName(prefix, hrefs[i]) == Ok(Some(n))
    decreases |hrefs|
  {
    if hrefs != [] {
      var init := hrefs[..|hrefs| - 1];
      assert forall i :: 0 <= i < |init| ==> init[i] == hrefs[i];
      NamesOfMembers(prefix, init);
      if NamesOf(prefix, hrefs).Ok? {
        forall n | n in NamesOf(prefix, hrefs).value
          ensures exists i :: 0 <= i < |hrefs| && LinkName(prefix, hrefs[i]) == Ok(Some(n))
        {
          if n !in NamesOf(prefix, init).value {
            assert LinkName(prefix, hrefs[|hrefs| - 1]) == Ok(Some(n));
          } else {
            var i :| 0 <= i < |init| && LinkName(prefix, init[i]) == Ok(Some(n));
            assert init[i] == hrefs[i];
          }
        }
      }
    }
  }
}
