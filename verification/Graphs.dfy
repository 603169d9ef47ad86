/** Reachability in a finite directed graph by a worklist. */
module Graphs {
  import opened Prelude

  type Edges<T> = map<T, set<T>>

  function Targets<T(==)>(edges: Edges<T>, m: T): set<T> {
    if m in edges then edges[m] else {}
  }

  predicate IsPath<T(==)>(edges: Edges<T>, p: seq<T>) {
    p != [] && forall i :: 0 <= i < |p| - 1 ==> p[i + 1] in Targets(edges, p[i])
  }

  ghost predicate Reachable<T(!new)>(edges: Edges<T>, roots: set<T>, m: T) {
    exists p :: IsPath(edges, p) && p[0] in roots && p[|p| - 1] == m
  }

  lemma ReachableRoot<T(!new)>(edges: Edges<T>, roots: set<T>, m: T)
    requires m in roots
    ensures Reachable(edges, roots, m)
  {
    assert IsPath(edges, [m]);
  }

  lemma ReachableStep<T(!new)>(edges: Edges<T>, roots: set<T>, m: T, n: T)
    requires Reachable(edges, roots, m) && n in Targets(edges, m)
    ensures Reachable(edges, roots, n)
  {
    var p :| IsPath(edges, p) && p[0] in roots && p[|p| - 1] == m;
    var q := p + [n];
    assert IsPath(edges, q) by {
      forall i | 0 <= i < |q| - 1 ensures q[i + 1] in Targets(edges, q[i]) {
        if i < |p| - 1 { assert q[i + 1] == p[i + 1]; }
      }
    }
  }

  /** A set that holds the roots and is closed under edges holds every path. */
  lemma {:induction false} ClosedHoldsPaths<T(!new)>(edges: Edges<T>, closed: set<T>, p: seq<T>)
    requires IsPath(edges, p) && p[0] in closed
    requires forall m :: m in closed ==> Targets(edges, m) <= closed
    ensures p[|p| - 1] in closed
    decreases |p|
  {
    if |p| > 1 {
      var init := p[..|p| - 1];
      assert IsPath(edges, init) by {
        forall i | 0 <= i < |init| - 1 ensures init[i + 1] in Targets(edges, init[i]) {
          assert init[i + 1] == p[i + 1];
        }
      }
      ClosedHoldsPaths(edges, closed, init);
      assert p[|p| - 2 + 1] in Targets(edges, p[|p| - 2]);
    }
  }

  /** Some order of a set's elements. */
  method Listed<T(==)>(s: set<T>) returns (q: seq<T>)
    ensures Elements(q) == s
  {
    q := [];
    var rest := s;
    while rest != {}
      invariant rest <= s && Elements(q) == s - rest
      decreases rest
    {
      var x :| x in rest;
      assert Elements(q + [x]) == Elements(q) + {x};
      q := q + [x];
      rest := rest - {x};
    }
  }

  /** Everything found is reachable; what it leads to is found or waiting. */
  ghost predicate Progress<T(!new)>(edges: Edges<T>, roots: set<T>, reached: set<T>, waiting: set<T>) {
    && (forall m :: m in reached + waiting ==> Reachable(edges, roots, m))
    && roots <= reached + waiting
    && (forall m :: m in reached ==> Targets(edges, m) <= reached + waiting)
  }

  lemma ProgressStarts<T(!new)>(edges: Edges<T>, roots: set<T>)
    ensures Progress(edges, roots, {}, roots)
  {
    forall m | m in roots ensures Reachable(edges, roots, m) {
      ReachableRoot(edges, roots, m);
    }
  }

  lemma ProgressVisits<T(!new)>(edges: Edges<T>, roots: set<T>, reached: set<T>, waiting: set<T>, rest: set<T>, m: T)
    requires Progress(edges, roots, reached, waiting) && waiting == rest + {m}
    ensures Progress(edges, roots, reached + {m}, rest + Targets(edges, m))
  {
    forall n | n in Targets(edges, m) ensures Reachable(edges, roots, n) {
      ReachableStep(edges, roots, m, n);
    }
  }

  lemma ProgressEnds<T(!new)>(edges: Edges<T>, roots: set<T>, reached: set<T>, m: T)
    requires Progress(edges, roots, reached, {})
    ensures m in reached <==> Reachable(edges, roots, m)
  {
    if Reachable(edges, roots, m) {
      var p :| IsPath(edges, p) && p[0] in roots && p[|p| - 1] == m;
      ClosedHoldsPaths(edges, reached, p);
    }
  }

  lemma PopAndPush<T>(pending: seq<T>, pushed: seq<T>)
    requires pending != []
    ensures Elements(pending) == Elements(pending[..|pending| - 1]) + {pending[|pending| - 1]}
    ensures Elements(pending[..|pending| - 1] + pushed) == Elements(pending[..|pending| - 1]) + Elements(pushed)
  {
  }

  /** All modules that can ever be pushed. */
  ghost function Universe<T>(edges: Edges<T>, roots: set<T>): set<T> {
    roots + set m, n | m in edges && n in edges[m] :: n
  }

  /** The worklist loop. Modules are pushed again and again, yet it stops, and it marks a
      module exactly when some path from a root leads there. */
  method Reach<T(!new, ==)>(edges: Edges<T>, roots: set<T>) returns (reached: set<T>)
    ensures forall m :: m in reached <==> Reachable(edges, roots, m)
  {
    reached := {};
    var pending := Listed(roots);
    ProgressStarts(edges, roots);
    while pending != []
      invariant Progress(edges, roots, reached, Elements(pending))
      invariant Elements(pending) <= Universe(edges, roots)
      decreases Universe(edges, roots) - reached, |pending|
    {
      var top := pending[|pending| - 1];
      var rest := pending[..|pending| - 1];
      PopAndPush(pending, []);
      if top in reached {
        pending := rest;
      } else {
        var pushed := Listed(Targets(edges, top));
        PopAndPush(pending, pushed);
        ProgressVisits(edges, roots, reached, Elements(pending), Elements(rest), top);
        reached := reached + {top};
        pending := rest + pushed;
      }
    }
    assert Elements(pending) == {};
    forall m ensures m in reached <==> Reachable(edges, roots, m) {
      ProgressEnds(edges, roots, reached, m);
    }
  }
}
