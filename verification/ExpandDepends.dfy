/** expand_deps: a depth-first walk that adds to one shared set. */
module ExpandDepends {
  import opened DependencyGraph

  class Expander {
    const depends: Graph
    var s: set<Name>

    constructor (depends: Graph)
      ensures this.depends == depends && s == {}
    {
      this.depends := depends;
      s := {};
    }

    /** expand_deps(pkg, s). Everything added is a dependency of pkg, and the
        additions are closed: their own dependencies are in the set too. */
    method ExpandDeps(pkg: Name)
      requires s <= Mentioned(depends)
      modifies `s
      ensures old(s) <= s <= Mentioned(depends)
      ensures Deps(depends, pkg) <= s
      ensures forall v :: v in s && v !in old(s) ==> Reaches(depends, pkg, v) && Deps(depends, v) <= s
      decreases Mentioned(depends) - s
    {
      if pkg in depends {
        var todo := depends[pkg];
        while todo != {}
          invariant todo <= depends[pkg]
          invariant old(s) <= s <= Mentioned(depends)
          invariant depends[pkg] - todo <= s
          invariant forall v :: v in s && v !in old(s) ==> Reaches(depends, pkg, v) && Deps(depends, v) <= s
          decreases todo
        {
          var dep :| dep in todo;
          todo := todo - {dep};
          if dep !in s {
            ghost var before := s;
            s := s + {dep};
            ReachesDirect(depends, pkg, dep);
            ExpandDeps(dep);
            forall v | v in s && v !in before && v != dep ensures Reaches(depends, pkg, v) {
              ReachesStep(depends, pkg, dep, v);
            }
          }
        }
      }
    }

    /** One line of the driver: the full dependencies of a package, on an empty set. */
    method FullDepends(pkg: Name) returns (all: set<Name>)
      modifies `s
      ensures all == s
      ensures forall v :: v in all <==> Reaches(depends, pkg, v)
    {
      s := {};
      ExpandDeps(pkg);
      all := s;
      forall v | Reaches(depends, pkg, v) ensures v in all {
        var p :| PathFromTo(depends, pkg, v, p) && |p| >= 2;
        ClosedHoldsPath(depends, pkg, p, all, |p| - 1);
      }
    }
  }
}
