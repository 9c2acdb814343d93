/** Small facts about sequence slicing, proved apart from any other definitions so that
    the solver does not meet them in a crowded context. */
module Sequences {
  lemma ConsTail<T>(x: T, s: seq<T>)
    ensures ([x] + s)[0] == x && ([x] + s)[1..] == s
  {
  }

  lemma PrefixOfAppend<T>(s: seq<T>, t: seq<T>)
    ensures (s + t)[..|s|] == s
  {
  }

  lemma PrefixOfPrefix<T>(s: seq<T>, n: nat, m: nat)
    requires m <= n <= |s|
    ensures s[..n][..m] == s[..m]
  {
  }

  /** One more element of `chain` appended after `before`. */
  lemma PrefixStep<T>(before: seq<T>, chain: seq<T>, j: nat)
    requires j < |chain|
    ensures before + chain[..j + 1] == (before + chain[..j]) + [chain[j]]
  {
    assert chain[..j + 1] == chain[..j] + [chain[j]];
  }

  /** The prefix of length `i + 1` ends with `s[i]` after the prefix of length `i`. */
  lemma PrefixGrow<T>(s: seq<T>, i: nat)
    requires i < |s|
    ensures |s[..i + 1]| == i + 1 && s[..i + 1][..i] == s[..i] && s[..i + 1][i] == s[i]
  {
  }

  lemma InitIndex<T>(s: seq<T>, i: nat)
    requires i + 1 < |s|
    ensures s[..|s| - 1][i] == s[i]
  {
  }

  lemma Whole<T>(s: seq<T>)
    ensures s[..|s|] == s
  {
  }

  /** The elements of a sequence. */
  function Elems<T>(q: seq<T>): set<T>
  {
    set x | x in q
  }

  /** A sequence has no more distinct elements than it is long. */
  lemma {:induction false} ElemsBound<T>(q: seq<T>)
    ensures |Elems(q)| <= |q|
    decreases |q|
  {
    if q != [] {
      var init := q[..|q| - 1];
      ElemsBound(init);
      assert Elems(q) == Elems(init) + {q[|q| - 1]} by {
        forall x | x in Elems(q)
          ensures x in Elems(init) + {q[|q| - 1]}
        {
          var i :| 0 <= i < |q| && q[i] == x;
          if i < |init| {
            assert init[i] == x;
          }
        }
      }
    }
  }

  /** A sequence without repetitions drawn from `s` is no longer than `s` is large. */
  lemma {:induction false} DistinctWithin<T>(q: seq<T>, s: set<T>)
    requires forall i :: 0 <= i < |q| ==> q[i] in s
    requires forall i, j :: 0 <= i < j < |q| ==> q[i] != q[j]
    ensures |q| <= |s|
    decreases |q|
  {
    if q != [] {
      var last := q[|q| - 1];
      var init := q[..|q| - 1];
      forall i | 0 <= i < |init|
        ensures init[i] in s - {last}
      {
        assert init[i] == q[i];
      }
      DistinctWithin(init, s - {last});
    }
  }
}
