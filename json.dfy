/** JSON values as the source builds them: objects are insertion-ordered dictionaries. */
module Json {
  import opened Dicts

  datatype Json =
    | Null
    | Bool(b: bool)
    | Int(i: int)
    | Str(s: string)
    | Arr(items: seq<Json>)
    | Obj(fields: Dict<Json>)

  /** A JSON object, the `JsonDict` of the source. */
  type JsonDict = Dict<Json>

  /** A list of JSON strings. */
  function Strs(ss: seq<string>): (r: seq<Json>)
    ensures |r| == |ss|
    ensures forall i :: 0 <= i < |ss| ==> r[i] == Str(ss[i])
  {
    if ss == [] then [] else [Str(ss[0])] + Strs(ss[1..])
  }

  /** A list of JSON objects. */
  function Objs(ds: seq<JsonDict>): (r: seq<Json>)
    ensures |r| == |ds|
    ensures forall i :: 0 <= i < |ds| ==> r[i] == Obj(ds[i])
  {
    if ds == [] then [] else [Obj(ds[0])] + Objs(ds[1..])
  }
}
