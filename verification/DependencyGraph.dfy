/** Dependency graphs as expand-depends.py reads them: packages with a set of
    names they depend on. Names need not be packages, and cycles are allowed. */
module DependencyGraph {

  type Name = string

  type Graph = map<Name, set<Name>>

  function Deps(g: Graph, p: Name): set<Name> {
    if p in g then g[p] else {}
  }

  /** p[0] depends on p[1], which depends on p[2], and so on. */
  ghost predicate IsPath(g: Graph, p: seq<Name>) {
    && |p| > 0
    && forall i :: 0 <= i < |p| - 1 ==> p[i + 1] in Deps(g, p[i])
  }

  ghost predicate PathFromTo(g: Graph, a: Name, b: Name, p: seq<Name>) {
    IsPath(g, p) && p[0] == a && p[|p| - 1] == b
  }

  /** b is a direct or indirect dependency of a. */
  ghost predicate Reaches(g: Graph, a: Name, b: Name) {
    exists p :: PathFromTo(g, a, b, p) && |p| >= 2
  }

  lemma ReachesDirect(g: Graph, a: Name, b: Name)
    requires b in Deps(g, a)
    ensures Reaches(g, a, b)
  {
    assert PathFromTo(g, a, b, [a, b]);
  }

  lemma ReachesStep(g: Graph, a: Name, b: Name, c: Name)
    requires b in Deps(g, a) && Reaches(g, b, c)
    ensures Reaches(g, a, c)
  {
    var p :| PathFromTo(g, b, c, p) && |p| >= 2;
    var q := [a] + p;
    assert forall i :: 0 <= i < |q| - 1 ==> q[i + 1] in Deps(g, q[i]) by {
      forall i | 0 <= i < |q| - 1 ensures q[i + 1] in Deps(g, q[i]) {
        if i > 0 { assert p[i] in Deps(g, p[i - 1]); }
      }
    }
    assert PathFromTo(g, a, c, q);
  }

  /** A set that holds the dependencies of a and of its own members holds all that a reaches. */
  lemma {:induction false} ClosedHoldsPath(g: Graph, a: Name, p: seq<Name>, s: set<Name>, n: nat)
    requires IsPath(g, p) && p[0] == a && Deps(g, a) <= s
    requires forall v :: v in s ==> Deps(g, v) <= s
    requires 1 <= n < |p|
    ensures p[n] in s
    decreases n
  {
    if n > 1 {
      ClosedHoldsPath(g, a, p, s, n - 1);
    }
    assert p[n - 1 + 1] in Deps(g, p[n - 1]);
  }

  /** The packages and all names that occur as dependencies. */
  function Mentioned(g: Graph): set<Name> {
    set k, d | k in g && d in g[k] :: d
  }
}
