/** Insertion-ordered dictionaries with string keys, as Python's `dict`:
    assigning to an existing key replaces its value but keeps its position,
    assigning to a new key appends it, and `a | b` merges `b` into a copy of `a`. */
module Dicts {
  import opened Wrappers
  import opened Sequences

  type Dict<V> = seq<(string, V)>

  /** The keys, in insertion order. */
  function Keys<V>(d: Dict<V>): (ks: seq<string>)
    ensures |ks| == |d|
  {
    if d == [] then [] else [d[0].0] + Keys(d[1..])
  }

  lemma {:induction false} KeysIndex<V>(d: Dict<V>, i: nat)
    requires i < |d|
    ensures Keys(d)[i] == d[i].0
    decreases i
  {
    ConsTail(d[0].0, Keys(d[1..]));
    if i > 0 {
      KeysIndex(d[1..], i - 1);
    }
  }

  /** `d.get(k)`: the value of the first entry with key `k`. */
  function Get<V>(d: Dict<V>, k: string): Option<V>
  {
    if d == [] then None
    else if d[0].0 == k then Some(d[0].1)
    else Get(d[1..], k)
  }

  /** A found value is the value of an entry with that key. */
  lemma {:induction false} GetEntry<V>(d: Dict<V>, k: string) returns (i: nat)
    requires Get(d, k).Some?
    ensures i < |d| && d[i] == (k, Get(d, k).value)
  {
    if d[0].0 == k {
      i := 0;
    } else {
      var j := GetEntry(d[1..], k);
      i := j + 1;
    }
  }

  /** The value of the first entry with key `k`. */
  lemma {:induction false} GetFirst<V>(d: Dict<V>, j: nat, k: string)
    requires j < |d| && d[j].0 == k
    requires forall i :: 0 <= i < j ==> d[i].0 != k
    ensures Get(d, k) == Some(d[j].1)
    decreases j
  {
    if j > 0 {
      GetFirst(d[1..], j - 1, k);
    }
  }

  /** No entry has key `k`. */
  lemma {:induction false} GetAbsent<V>(d: Dict<V>, k: string)
    requires forall i :: 0 <= i < |d| ==> d[i].0 != k
    ensures Get(d, k) == None
    decreases |d|
  {
    if d != [] {
      GetAbsent(d[1..], k);
    }
  }

  /** `k in d`. */
  lemma {:induction false} GetKeys<V>(d: Dict<V>, k: string)
    ensures Get(d, k).Some? <==> k in Keys(d)
  {
    if d != [] {
      ConsTail(d[0].0, Keys(d[1..]));
      GetKeys(d[1..], k);
    }
  }

  /** `d[k] = v`. */
  function Set<V>(d: Dict<V>, k: string, v: V): (r: Dict<V>)
    ensures Keys(r) == Keys(d) + (if Get(d, k).Some? then [] else [k])
    ensures Get(r, k) == Some(v)
    ensures forall k' :: k' != k ==> Get(r, k') == Get(d, k')
  {
    if d == [] then [(k, v)]
    else if d[0].0 == k then
      var r := [(k, v)] + d[1..];
      ConsTail((k, v), d[1..]);
      ConsTail(d[0].0, Keys(d[1..]));
      r
    else
      var tail := Set(d[1..], k, v);
      var r := [d[0]] + tail;
      ConsTail(d[0], tail);
      ConsTail(d[0].0, Keys(tail));
      ConsTail(d[0].0, Keys(d[1..]));
      r
  }

  /** No key occurs twice (every dictionary built with `Set` from one that has this). */
  predicate UniqueKeys<V>(d: Dict<V>)
  {
    forall i, j :: 0 <= i < j < |d| ==> d[i].0 != d[j].0
  }

  /** Assignment keeps the keys unique. */
  lemma SetUnique<V>(d: Dict<V>, k: string, v: V)
    requires UniqueKeys(d)
    ensures UniqueKeys(Set(d, k, v))
  {
    var r := Set(d, k, v);
    var ks, kd := Keys(r), Keys(d);
    GetKeys(d, k);
    forall i, j | 0 <= i < j < |r|
      ensures r[i].0 != r[j].0
    {
      KeysIndex(r, i);
      KeysIndex(r, j);
      KeysIndex(d, i);
      if j < |d| {
        KeysIndex(d, j);
      }
    }
  }

  /** `a | b`: `b`'s entries assigned, in order, into a copy of `a`. */
  function Merge<V>(a: Dict<V>, b: Dict<V>): Dict<V>
    decreases b
  {
    if b == [] then a else Merge(Set(a, b[0].0, b[0].1), b[1..])
  }

  /** The keys of `a | b` begin with those of `a`, in their order. */
  lemma {:induction false} MergeKeysPrefix<V>(a: Dict<V>, b: Dict<V>)
    ensures |Keys(Merge(a, b))| >= |Keys(a)| && Keys(Merge(a, b))[..|Keys(a)|] == Keys(a)
    decreases b
  {
    if b != [] {
      var a' := Set(a, b[0].0, b[0].1);
      MergeKeysPrefix(a', b[1..]);
      PrefixOfAppend(Keys(a), if Get(a, b[0].0).Some? then [] else [b[0].0]);
      PrefixOfPrefix(Keys(Merge(a', b[1..])), |Keys(a')|, |Keys(a)|);
    }
  }

  /** `a | b` has the keys of `a` and those of `b`; on a key of `b` it holds `b`'s last
      value for it, elsewhere `a`'s. */
  lemma {:induction false} MergeGet<V>(a: Dict<V>, b: Dict<V>, k: string)
    ensures Get(Merge(a, b), k) == if Get(b, k).Some? then LastValue(b, k) else Get(a, k)
    decreases b
  {
    if b != [] {
      MergeGet(Set(a, b[0].0, b[0].1), b[1..], k);
    }
  }

  /** The value of the last entry with key `k`: what a dictionary display or a sequence of
      assignments leaves for `k`. */
  function LastValue<V>(d: Dict<V>, k: string): (r: Option<V>)
    ensures r.Some? <==> Get(d, k).Some?
  {
    if d == [] then None
    else
      var rest := LastValue(d[1..], k);
      if rest.Some? then rest
      else if d[0].0 == k then Some(d[0].1)
      else None
  }

  /** With unique keys, the first and the last entry for a key are the same one. */
  lemma {:induction false} LastValueUnique<V>(d: Dict<V>, k: string)
    requires UniqueKeys(d)
    ensures LastValue(d, k) == Get(d, k)
  {
    if d != [] {
      assert UniqueKeys(d[1..]) by {
        forall i, j | 0 <= i < j < |d[1..]|
          ensures d[1..][i].0 != d[1..][j].0
        {
          assert d[1..][i] == d[i + 1] && d[1..][j] == d[j + 1];
        }
      }
      LastValueUnique(d[1..], k);
      if d[0].0 == k {
        GetKeys(d[1..], k);
        forall i | 0 <= i < |d[1..]|
          ensures Keys(d[1..])[i] != k
        {
          KeysIndex(d[1..], i);
          assert d[1..][i] == d[i + 1];
        }
      }
    }
  }

  /** Merging into a dictionary with unique keys keeps them unique. */
  lemma {:induction false} MergeUnique<V>(a: Dict<V>, b: Dict<V>)
    requires UniqueKeys(a)
    ensures UniqueKeys(Merge(a, b))
    decreases b
  {
    if b != [] {
      SetUnique(a, b[0].0, b[0].1);
      MergeUnique(Set(a, b[0].0, b[0].1), b[1..]);
    }
  }

  /** The last value in `a + b` is `b`'s when `b` has the key, `a`'s otherwise. */
  lemma {:induction false} LastValueAppend<V>(a: Dict<V>, b: Dict<V>, k: string)
    ensures LastValue(a + b, k) == if LastValue(b, k).Some? then LastValue(b, k) else LastValue(a, k)
    decreases |a|
  {
    if a != [] {
      assert (a + b)[1..] == a[1..] + b;
      LastValueAppend(a[1..], b, k);
    } else {
      assert a + b == b;
    }
  }

  /** A dictionary display `{k: v for k, v in pairs}`, assigned into an empty dictionary,
      holds for each key the last value given for it. */
  lemma DisplayGet<V>(pairs: Dict<V>, k: string)
    ensures UniqueKeys(Merge([], pairs))
    ensures Get(Merge([], pairs), k) == LastValue(pairs, k)
  {
    MergeUnique([], pairs);
    MergeGet([], pairs, k);
  }

  /** `{k: v for k, v in d.items() if k in keep}`. */
  function Restrict<V>(d: Dict<V>, keep: set<string>): (r: Dict<V>)
    ensures forall k :: Get(r, k) == if k in keep then Get(d, k) else None
  {
    if d == [] then []
    else
      var rest := Restrict(d[1..], keep);
      if d[0].0 in keep then
        ConsTail(d[0], rest);
        [d[0]] + rest
      else rest
  }

  /** The elements of `s` in the order of their first occurrence, each once. */
  function Dedup(s: seq<string>): (r: seq<string>)
    ensures forall x :: x in r <==> x in s
    ensures forall i, j :: 0 <= i < j < |r| ==> r[i] != r[j]
  {
    if s == [] then []
    else
      var init := Dedup(s[..|s| - 1]);
      assert forall x :: x in s <==> x in s[..|s| - 1] || x == s[|s| - 1];
      if s[|s| - 1] in s[..|s| - 1] then init else init + [s[|s| - 1]]
  }
}
