/** Reachability over a finite name graph, and the two worklist loops of `JsonSchemaMaker` that
    compute it: the search for the names a schema needs, which skips names already seen, and
    the search for a prototype's descendants, which does not. */
module Reachability {
  import opened Wrappers

  /** Each name's successors; a name without an entry has none. */
  type Graph = map<string, set<string>>

  function Succ(g: Graph, n: string): set<string>
  {
    if n in g then g[n] else {}
  }

  /** Every name some entry points to. */
  function Targets(g: Graph): (r: set<string>)
    ensures forall m, n :: m in g && n in g[m] ==> n in r
  {
    set m, n | m in g && n in g[m] :: n
  }

  /** A walk along the graph's edges. */
  ghost predicate IsPath(g: Graph, p: seq<string>)
  {
    |p| >= 1 && forall i :: 0 <= i < |p| - 1 ==> p[i + 1] in Succ(g, p[i])
  }

  /** `n` is at the end of a walk that starts at a root. */
  ghost predicate ReachableFrom(g: Graph, roots: set<string>, n: string)
  {
    exists p :: IsPath(g, p) && p[0] in roots && p[|p| - 1] == n
  }

  /** The names reachable from the roots, roots included. */
  ghost function Reachable(g: Graph, roots: set<string>): set<string>
  {
    set n | n in roots + Targets(g) && ReachableFrom(g, roots, n)
  }

  lemma RootsReachable(g: Graph, roots: set<string>)
    ensures roots <= Reachable(g, roots)
  {
    forall n | n in roots
      ensures n in Reachable(g, roots)
    {
      assert IsPath(g, [n]);
    }
  }

  /** The reachable names are closed under successors. */
  lemma ReachableClosed(g: Graph, roots: set<string>, n: string)
    requires n in Reachable(g, roots)
    ensures Succ(g, n) <= Reachable(g, roots)
  {
    var p :| IsPath(g, p) && p[0] in roots && p[|p| - 1] == n;
    forall m | m in Succ(g, n)
      ensures m in Reachable(g, roots)
    {
      var q := p + [m];
      assert IsPath(g, q) by {
        forall i | 0 <= i < |q| - 1
          ensures q[i + 1] in Succ(g, q[i])
        {
          if i < |p| - 1 {
            assert q[i] == p[i] && q[i + 1] == p[i + 1];
          }
        }
      }
      assert q[0] == p[0] && q[|q| - 1] == m;
      assert n in g;
    }
  }

  /** They are the least such set: any set holding the roots and closed under successors
      holds every reachable name. */
  lemma ReachableLeast(g: Graph, roots: set<string>, s: set<string>)
    requires roots <= s
    requires forall n :: n in s ==> Succ(g, n) <= s
    ensures Reachable(g, roots) <= s
  {
    forall n | n in Reachable(g, roots)
      ensures n in s
    {
      var p :| IsPath(g, p) && p[0] in roots && p[|p| - 1] == n;
      PathStaysIn(g, p, s);
    }
  }

  lemma {:induction false} PathStaysIn(g: Graph, p: seq<string>, s: set<string>)
    requires IsPath(g, p) && p[0] in s
    requires forall n :: n in s ==> Succ(g, n) <= s
    ensures p[|p| - 1] in s
    decreases |p|
  {
    if |p| > 1 {
      var q := p[..|p| - 1];
      assert IsPath(g, q) by {
        forall i | 0 <= i < |q| - 1
          ensures q[i + 1] in Succ(g, q[i])
        {
          assert q[i] == p[i] && q[i + 1] == p[i + 1];
        }
      }
      PathStaysIn(g, q, s);
      assert p[|p| - 1] in Succ(g, p[|p| - 2]);
    }
  }

  /** The names any search can meet. */
  function Universe(g: Graph, roots: set<string>): set<string>
  {
    roots + Targets(g)
  }

  /** The `to_json` search: pop a name, and the first time it is seen, record it and queue
      the names it needs. */
  method Explore(g: Graph, roots: set<string>) returns (seen: set<string>)
    ensures seen == Reachable(g, roots)
  {
    RootsReachable(g, roots);
    ghost var universe := Universe(g, roots);
    seen := {};
    var toExplore := roots;
    while toExplore != {}
      invariant AllReachable(g, roots, seen + toExplore)
      invariant seen + toExplore <= universe
      invariant roots <= seen + toExplore
      invariant ClosedUpTo(g, seen, toExplore)
      decreases |universe - seen|, |toExplore|
    {
      var n :| n in toExplore;
      ghost var before := toExplore;
      toExplore := toExplore - {n};
      if n !in seen {
        VisitStep(g, roots, seen, before, n);
        OneMore(universe, seen, n);
        seen := seen + {n};
        toExplore := toExplore + Succ(g, n);
      } else {
        OneMore(before, {}, n);
        ClosedSkip(g, seen, before, n);
      }
    }
    ExploreDone(g, roots, seen);
  }

  /** Every name of `s` is reachable. */
  ghost predicate AllReachable(g: Graph, roots: set<string>, s: set<string>)
  {
    s <= Reachable(g, roots)
  }

  /** Recording a pending name and queueing its successors keeps every name reachable, within
      the universe, and the seen names closed up to the pending ones. */
  lemma VisitStep(g: Graph, roots: set<string>, seen: set<string>, pending: set<string>, n: string)
    requires AllReachable(g, roots, seen + pending) && seen + pending <= Universe(g, roots)
    requires roots <= seen + pending && ClosedUpTo(g, seen, pending) && n in pending
    ensures var seen', pending' := seen + {n}, (pending - {n}) + Succ(g, n);
            && AllReachable(g, roots, seen' + pending') && seen' + pending' <= Universe(g, roots)
            && roots <= seen' + pending' && ClosedUpTo(g, seen', pending')
  {
    ReachableClosed(g, roots, n);
    SuccInUniverse(g, roots, n);
    ClosedVisit(g, seen, pending, n);
    assert (seen + {n}) + ((pending - {n}) + Succ(g, n)) == (seen + pending) + Succ(g, n);
  }

  /** When nothing is pending, the seen names are exactly the reachable ones. */
  lemma ExploreDone(g: Graph, roots: set<string>, seen: set<string>)
    requires AllReachable(g, roots, seen + {}) && roots <= seen + {} && ClosedUpTo(g, seen, {})
    ensures seen == Reachable(g, roots)
  {
    assert seen + {} == seen;
    ClosedDone(g, seen);
    ReachableLeast(g, roots, seen);
  }

  /** Every name seen has its successors seen or pending. */
  predicate ClosedUpTo(g: Graph, seen: set<string>, pending: set<string>)
  {
    forall n :: n in seen ==> Succ(g, n) <= seen + pending
  }

  lemma ClosedVisit(g: Graph, seen: set<string>, pending: set<string>, n: string)
    requires ClosedUpTo(g, seen, pending) && n in pending
    ensures ClosedUpTo(g, seen + {n}, (pending - {n}) + Succ(g, n))
  {
    assert seen + pending <= (seen + {n}) + ((pending - {n}) + Succ(g, n));
  }

  lemma ClosedSkip(g: Graph, seen: set<string>, pending: set<string>, n: string)
    requires ClosedUpTo(g, seen, pending) && n in seen
    ensures ClosedUpTo(g, seen, pending - {n})
  {
    assert seen + pending == seen + (pending - {n});
  }

  lemma ClosedDone(g: Graph, seen: set<string>)
    requires ClosedUpTo(g, seen, {})
    ensures forall n :: n in seen ==> Succ(g, n) <= seen
  {
    assert seen + {} == seen;
  }

  lemma SuccInUniverse(g: Graph, roots: set<string>, n: string)
    ensures Succ(g, n) <= Universe(g, roots)
  {
  }

  /** Taking one more element out of `u` leaves fewer. */
  lemma OneMore(u: set<string>, s: set<string>, n: string)
    requires n in u && n !in s
    ensures |u - (s + {n})| < |u - s|
  {
    assert (u - (s + {n})) + {n} == u - s;
  }

  const Diverges := "the descendant " + "search does not terminate"

  /** The descendant search of `__init_prototypes_to_include`: pop a name and yield and queue
      all its successors, with no record of the names already expanded. On a cycle the source
      loops for ever; here `budget` bounds the number of pops, and running out of it fails. */
  method ExploreAll(g: Graph, roots: set<string>, budget: nat) returns (r: Result<set<string>, string>)
    ensures r.Ok? ==> r.value == Reachable(g, roots)
    ensures r.Err? ==> r.error == Diverges
  {
    RootsReachable(g, roots);
    var found := roots;
    var toExplore := roots;
    var left := budget;
    while toExplore != {}
      invariant found <= Reachable(g, roots) && toExplore <= found && roots <= found
      invariant forall n :: n in found ==> n in toExplore || Succ(g, n) <= found
      decreases left
    {
      if left == 0 {
        return Err(Diverges);
      }
      var n :| n in toExplore;
      toExplore := toExplore - {n};
      var children := Succ(g, n);
      ReachableClosed(g, roots, n);
      found := found + children;
      toExplore := toExplore + children;
      left := left - 1;
    }
    ReachableLeast(g, roots, found);
    r := Ok(found);
  }
}
