/** iterate_leaves and the driver code that prepares its tree, step by step. */
module IterateLeaves {
  import opened DependencyGraph
  import opened BuildRounds

  /** The names of a list of lists, as a dependency graph. */
  function GraphOf(deps: map<Name, seq<Name>>): Graph {
    map k | k in deps :: Elems(deps[k])
  }

  /** Which keys have an empty list. */
  function Childless(deps: map<Name, seq<Name>>): set<Name> {
    set k | k in deps && deps[k] == []
  }

  /** The ordered dictionary: its keys in order and the list of each key. */
  class Tree {
    var keys: seq<Name>
    var deps: map<Name, seq<Name>>

    constructor (keys: seq<Name>, deps: map<Name, seq<Name>>)
      requires WellFormed(keys, deps)
      ensures this.keys == keys && this.deps == deps
    {
      this.keys, this.deps := keys, deps;
    }

    /** The first inner loop: note every key whose list is empty. */
    method CollectLeaves() returns (leaves: seq<Name>)
      requires WellFormed(keys, deps)
      ensures leaves == Keep(keys, Childless(deps))
    {
      leaves := [];
      for i := 0 to |keys|
        invariant leaves == Keep(keys[..i], Childless(deps))
      {
        var key := keys[i];
        assert key in Elems(keys);
        KeepAppend(keys[..i], key, Childless(deps));
        assert keys[..i + 1] == keys[..i] + [key];
        if deps[key] == [] {
          leaves := leaves + [key];
        }
      }
      assert keys[..|keys|] == keys;
    }

    /** The second: delete the leaves from the dictionary. */
    method DeleteLeaves(leaves: seq<Name>)
      requires WellFormed(keys, deps)
      modifies this
      ensures WellFormed(keys, deps)
      ensures deps == old(deps) - Elems(leaves)
      ensures keys == Keep(old(keys), old(deps).Keys - Elems(leaves))
    {
      hide *;
      DeleteNone(keys, deps, leaves);
      for i := 0 to |leaves|
        invariant WellFormed(keys, deps)
        invariant deps == old(deps) - Elems(leaves[..i])
        invariant keys == Keep(old(keys), old(deps).Keys - Elems(leaves[..i]))
      {
        var leaf := leaves[i];
        DeleteOne(old(keys), old(deps).Keys, keys, deps, leaves, i);
        keys := Keep(keys, deps.Keys - {leaf});
        deps := deps - {leaf};
        assert deps == old(deps) - Elems(leaves[..i + 1]);
      }
      assert leaves[..|leaves|] == leaves;
    }

    /** The third: strike the leaves from the lists of the remaining keys. */
    method StrikeLeaves(leaves: seq<Name>)
      requires WellFormed(keys, deps)
      modifies `deps
      ensures WellFormed(keys, deps) && deps.Keys == old(deps).Keys
      ensures forall k :: k in deps ==> Elems(deps[k]) == Elems(old(deps)[k]) - Elems(leaves)
    {
      ghost var was := deps;
      for i := 0 to |keys|
        invariant Struck(keys, was, deps, leaves, i)
      {
        var key := keys[i];
        assert key in Elems(keys);
        hide WellFormed;
        var list := StrikeFrom(deps[key], leaves);
        StruckStep(keys, was, deps, leaves, i, list);
        deps := deps[key := list];
      }
      forall k | k in deps ensures k in keys[..|keys|] {
        assert k in Elems(keys);
      }
    }

    /** iterate_leaves: the contents of the files it writes, in order; after a
        deadlock the last file is empty. */
    method Iterate() returns (files: seq<seq<Name>>)
      requires WellFormed(keys, deps)
      modifies this
      ensures
        var g := GraphOf(old(deps));
        var n := if deps == map[] then |files| else |files| - 1;
        && n >= 0
        && (forall k :: 0 <= k < n ==> files[k] == Keep(old(keys), Round(g, k)))
        && (deps != map[] ==> files[n] == [])
        && Layer(g, n + 1) == Layer(g, n)
        && deps.Keys == g.Keys - Layer(g, n)
    {
      hide *;
      ghost var g := GraphOf(deps);
      ghost var keys0 := keys;
      files := [];
      AtFirst(keys, deps);
      while |keys| > 0
        invariant WellFormed(keys, deps) && Remains(g, keys0, |files|, keys, deps)
        invariant forall k :: 0 <= k < |files| ==> files[k] == Keep(keys0, Round(g, k))
        decreases |keys|
      {
        ghost var n, keysWas, depsWas := |files|, keys, deps;
        var leaves := CollectLeaves();
        files := files + [leaves];
        RoundIs(g, keys0, n, keys, deps);
        if |leaves| == 0 {
          NoProgress(g, keys0, n, keys, deps);
          Stopped(g, keys0, n, keys, deps);
          return;
        }
        DeleteLeaves(leaves);
        Shorter(keysWas, depsWas, leaves);
        StrikeLeaves(leaves);
        Advances(g, keys0, n, leaves, keysWas, depsWas, keys, deps);
      }
      Stopped(g, keys0, |files|, keys, deps);
    }
  }

  /** The files of a whole run, in the program's own terms: file k lists, each
      once, the packages whose longest dependency chain has k steps; the tree is
      left with exactly the packages that cannot be built. */
  method BuildOrder(tree: Tree) returns (files: seq<seq<Name>>)
    requires WellFormed(tree.keys, tree.deps)
    modifies tree
    ensures var g := GraphOf(old(tree.deps));
      && (forall k :: 0 <= k < |files| ==> Distinct(files[k]))
      && (forall k, p :: 0 <= k < |files| ==> (p in files[k] <==> LongestChain(g, p, k)))
      && (forall p :: p in g ==> (p in tree.deps <==> Doomed(g, p)))
      && (forall p :: p in g && p !in tree.deps ==> exists k :: 0 <= k < |files| && p in files[k])
  {
    ghost var keys, g := tree.keys, GraphOf(tree.deps);
    assert Elems(keys) == g.Keys;
    files := tree.Iterate();
    ghost var n := if tree.deps == map[] then |files| else |files| - 1;
    forall k | 0 <= k < |files|
      ensures Distinct(files[k]) && forall p :: p in files[k] <==> LongestChain(g, p, k)
    {
      FileMeaning(g, keys, files[k], k, n);
    }
    forall p | p in g ensures p in tree.deps <==> Doomed(g, p) {
      RemainderMeaning(g, p, n);
    }
    forall p | p in g && p !in tree.deps ensures exists k :: 0 <= k < |files| && p in files[k] {
      var k := RoundOf(g, p, n);
      RoundMeaning(g, p, k);
    }
  }

  lemma FileMeaning(g: Graph, keys: seq<Name>, file: seq<Name>, k: nat, n: nat)
    requires Distinct(keys) && Elems(keys) == g.Keys && Layer(g, n + 1) == Layer(g, n)
    requires k < n ==> file == Keep(keys, Round(g, k))
    requires k >= n ==> file == []
    ensures Distinct(file) && forall p :: p in file <==> LongestChain(g, p, k)
  {
    KeepDistinct(keys, Round(g, k));
    KeepElems(keys, Round(g, k));
    LayersGrow(g, k + 1, k + 1);
    if k >= n {
      LayersStop(g, n, k);
      LayersStop(g, n, k + 1);
    }
    forall p ensures p in file <==> LongestChain(g, p, k) {
      RoundMeaning(g, p, k);
      assert p in Round(g, k) ==> p in Elems(keys);
    }
  }

  /** The lists of the first i keys have been struck, the others not yet. */
  ghost predicate Struck(keys: seq<Name>, was: map<Name, seq<Name>>, deps: map<Name, seq<Name>>, leaves: seq<Name>, i: nat) {
    && i <= |keys| && WellFormed(keys, deps) && deps.Keys == was.Keys
    && (forall k :: k in deps && k in keys[..i] ==> Elems(deps[k]) == Elems(was[k]) - Elems(leaves))
    && (forall k :: k in deps && k in keys[i..] ==> deps[k] == was[k])
  }

  lemma StruckStep(keys: seq<Name>, was: map<Name, seq<Name>>, deps: map<Name, seq<Name>>, leaves: seq<Name>, i: nat, list: seq<Name>)
    requires Struck(keys, was, deps, leaves, i) && i < |keys| && keys[i] in deps
    requires Distinct(list) && Elems(list) == Elems(deps[keys[i]]) - Elems(leaves)
    ensures Struck(keys, was, deps[keys[i] := list], leaves, i + 1)
  {
    var key := keys[i];
    assert key in keys[i..];
    forall k | k in deps && k in keys[..i + 1] ensures k == key || k in keys[..i] {}
    forall k | k in deps && k in keys[i + 1..] ensures k != key && k in keys[i..] {
      var j :| i + 1 <= j < |keys| && keys[j] == k;
      assert keys[i..][j - i] == k;
    }
  }

  lemma DeleteNone(keys: seq<Name>, deps: map<Name, seq<Name>>, leaves: seq<Name>)
    requires WellFormed(keys, deps)
    ensures deps == deps - Elems(leaves[..0])
    ensures keys == Keep(keys, deps.Keys - Elems(leaves[..0]))
  {
    KeepAll(keys, deps.Keys);
    hide Keep, WellFormed;
    assert Elems(leaves[..0]) == {};
    assert deps.Keys - {} == deps.Keys;
  }

  lemma DeleteOne(keys0: seq<Name>, all: set<Name>, keys: seq<Name>, deps: map<Name, seq<Name>>, leaves: seq<Name>, i: nat)
    requires WellFormed(keys, deps) && i < |leaves|
    requires deps.Keys == all - Elems(leaves[..i])
    requires keys == Keep(keys0, all - Elems(leaves[..i]))
    ensures WellFormed(Keep(keys, deps.Keys - {leaves[i]}), deps - {leaves[i]})
    ensures Elems(leaves[..i + 1]) == Elems(leaves[..i]) + {leaves[i]}
    ensures Keep(keys, deps.Keys - {leaves[i]}) == Keep(keys0, all - Elems(leaves[..i + 1]))
  {
    hide Keep;
    var rest := deps.Keys - {leaves[i]};
    KeepDistinct(keys, rest);
    KeepElems(keys, rest);
    KeepKeep(keys0, deps.Keys, rest);
    ElemsGrow(leaves, i);
    assert deps.Keys * rest == all - Elems(leaves[..i + 1]);
  }

  lemma ElemsGrow(s: seq<Name>, i: nat)
    requires i < |s|
    ensures Elems(s[..i + 1]) == Elems(s[..i]) + {s[i]}
  {
    assert s[..i + 1] == s[..i] + [s[i]];
  }

  ghost predicate WellFormed(keys: seq<Name>, deps: map<Name, seq<Name>>) {
    && Distinct(keys)
    && Elems(keys) == deps.Keys
    && forall k :: k in deps ==> Distinct(deps[k])
  }

  lemma NothingLeft(a: set<Name>, b: set<Name>)
    ensures a - b == {} <==> a <= b
  {
    if a - b == {} {
      forall x | x in a ensures x in b { assert x !in a - b; }
    }
  }

  lemma Peeled(all: set<Name>, done: set<Name>, more: set<Name>)
    requires done <= more
    ensures (all - done) - (more - done) == all - more
    ensures (all - done) * (all - more) == all - more
  {
  }

  /** Before round n: what has not been built, and what it still waits for. */
  ghost predicate Remains(g: Graph, keys0: seq<Name>, n: nat, keys: seq<Name>, deps: map<Name, seq<Name>>) {
    && deps.Keys == g.Keys - Layer(g, n)
    && keys == Keep(keys0, g.Keys - Layer(g, n))
    && forall k :: k in deps ==> Elems(deps[k]) == g[k] - Layer(g, n)
  }

  lemma RoundIs(g: Graph, keys0: seq<Name>, n: nat, keys: seq<Name>, deps: map<Name, seq<Name>>)
    requires WellFormed(keys, deps) && Remains(g, keys0, n, keys, deps)
    ensures Childless(deps) == Round(g, n)
    ensures Keep(keys, Childless(deps)) == Keep(keys0, Round(g, n))
  {
    LayersGrow(g, n, n + 1);
    forall k ensures k in Childless(deps) <==> k in Round(g, n) {
      if k in deps {
        assert deps[k] == [] <==> Elems(deps[k]) == {} by {
          if deps[k] != [] { assert deps[k][0] in Elems(deps[k]); }
        }
        NothingLeft(g[k], Layer(g, n));
        assert k in Layer(g, n + 1) <==> g[k] <= Layer(g, n);
      }
    }
    KeepKeep(keys0, g.Keys - Layer(g, n), Round(g, n));
    assert (g.Keys - Layer(g, n)) * Round(g, n) == Round(g, n);
  }

  lemma NoProgress(g: Graph, keys0: seq<Name>, n: nat, keys: seq<Name>, deps: map<Name, seq<Name>>)
    requires WellFormed(keys, deps) && Remains(g, keys0, n, keys, deps)
    requires Keep(keys, Childless(deps)) == []
    ensures Layer(g, n + 1) == Layer(g, n)
  {
    LeavesAre(g, keys0, n, keys, deps);
    LayersGrow(g, n, n + 1);
    hide Layer;
    assert Round(g, n) == {};
    NothingLeft(Layer(g, n + 1), Layer(g, n));
  }

  lemma AtFirst(keys: seq<Name>, deps: map<Name, seq<Name>>)
    requires WellFormed(keys, deps)
    ensures Remains(GraphOf(deps), keys, 0, keys, deps)
  {
    KeepAll(keys, deps.Keys);
  }

  /** One round takes the tree from "before round n" to "before round n + 1". */
  lemma Advances(g: Graph, keys0: seq<Name>, n: nat, leaves: seq<Name>,
                 keys: seq<Name>, deps: map<Name, seq<Name>>, keys': seq<Name>, deps': map<Name, seq<Name>>)
    requires WellFormed(keys, deps) && Remains(g, keys0, n, keys, deps)
    requires leaves == Keep(keys, Childless(deps))
    requires deps'.Keys == deps.Keys - Elems(leaves)
    requires keys' == Keep(keys, deps.Keys - Elems(leaves))
    requires forall k :: k in deps' ==> Elems(deps'[k]) == Elems(deps[k]) - Elems(leaves)
    ensures Remains(g, keys0, n + 1, keys', deps')
  {
    LayersGrow(g, n, n + 1);
    LeavesAre(g, keys0, n, keys, deps);
    hide Layer, Keep, Elems, Childless, WellFormed;
    var todo, rest := g.Keys - Layer(g, n), g.Keys - Layer(g, n + 1);
    Peeled(g.Keys, Layer(g, n), Layer(g, n + 1));
    KeepKeep(keys0, todo, rest);
    forall k | k in deps' ensures Elems(deps'[k]) == g[k] - Layer(g, n + 1) {
      Peeled(g[k], Layer(g, n), Layer(g, n + 1));
    }
  }

  lemma LeavesAre(g: Graph, keys0: seq<Name>, n: nat, keys: seq<Name>, deps: map<Name, seq<Name>>)
    requires WellFormed(keys, deps) && Remains(g, keys0, n, keys, deps)
    ensures Elems(Keep(keys, Childless(deps))) == Round(g, n)
  {
    RoundIs(g, keys0, n, keys, deps);
    KeepElems(keys, Childless(deps));
    forall x | x in Round(g, n) ensures x in keys {
      assert x in Elems(keys);
    }
  }

  lemma Shorter(keys: seq<Name>, deps: map<Name, seq<Name>>, leaves: seq<Name>)
    requires WellFormed(keys, deps) && leaves != [] && leaves == Keep(keys, Childless(deps))
    ensures |Keep(keys, deps.Keys - Elems(leaves))| < |keys|
  {
    KeepElems(keys, Childless(deps));
    assert leaves[0] in leaves && leaves[0] in Elems(leaves);
    KeepShorter(keys, deps.Keys - Elems(leaves), leaves[0]);
  }

  lemma Stopped(g: Graph, keys0: seq<Name>, n: nat, keys: seq<Name>, deps: map<Name, seq<Name>>)
    requires WellFormed(keys, deps) && Remains(g, keys0, n, keys, deps)
    ensures keys == [] ==> deps == map[] && Layer(g, n + 1) == Layer(g, n)
    ensures keys != [] ==> deps != map[]
    ensures deps.Keys == g.Keys - Layer(g, n)
  {
    LayersGrow(g, n, n + 1);
    if keys != [] {
      assert keys[0] in Elems(keys);
    } else {
      assert deps.Keys == {};
    }
  }

  /** The innermost loop: each leaf is removed once from one list. */
  method StrikeFrom(list: seq<Name>, leaves: seq<Name>) returns (r: seq<Name>)
    requires Distinct(list)
    ensures Distinct(r)
    ensures Elems(r) == Elems(list) - Elems(leaves)
  {
    r := list;
    for i := 0 to |leaves|
      invariant Distinct(r)
      invariant Elems(r) == Elems(list) - Elems(leaves[..i])
    {
      var leaf := leaves[i];
      assert Elems(leaves[..i + 1]) == Elems(leaves[..i]) + {leaf};
      ghost var was := r;
      if leaf in r {
        RemoveDistinct(r, leaf);
        r := Remove(r, leaf);
      }
      assert forall y :: y in Elems(r) <==> y in Elems(was) && y != leaf;
    }
    assert leaves[..|leaves|] == leaves;
  }

  // -------------------------------------------------------------- the driver

  /** The tree of the driver: packages with dependencies, then the other listed
      packages with none; "." is not a package. */
  function TreeOf(depends: Graph, packages: seq<Name>): Graph {
    WithPackages(map p | p in depends && depends[p] != {} :: depends[p], packages)
  }

  function WithPackages(tree: Graph, packages: seq<Name>): Graph {
    (map p | p in packages && p != "." :: {}) + tree
  }

  /** The tree has a package exactly when it has dependencies, or is listed and
      not "."; and each has the dependencies that were read for it. */
  lemma TreeMeaning(depends: Graph, packages: seq<Name>, p: Name)
    ensures var g := TreeOf(depends, packages);
      && (p in g <==> Deps(depends, p) != {} || (p in packages && p != "."))
      && (p in g ==> g[p] == Deps(depends, p))
  {
  }

  /** tree_deps: enters a package and its dependencies, one by one. */
  method TreeDeps(tree: Graph, pkg: Name, deps: set<Name>) returns (tree': Graph)
    requires pkg !in tree
    ensures tree' == if deps == {} then tree else tree[pkg := deps]
  {
    tree' := tree;
    var left := deps;
    while left != {}
      invariant left <= deps
      invariant tree' == if left == deps then tree else tree[pkg := deps - left]
      decreases left
    {
      ghost var was := left;
      var dep :| dep in left;
      left := left - {dep};
      if pkg !in tree' {
        tree' := tree'[pkg := {}];
      }
      assert tree'[pkg] == deps - was;
      tree' := tree'[pkg := tree'[pkg] + {dep}];
      assert (deps - was) + {dep} == deps - left;
      assert dep in deps && dep !in left;
      assert tree' == tree[pkg := deps - left];
    }
    assert deps - {} == deps;
  }

  /** tree_deps over the dictionary, then the loop over the package list. */
  method BuildTree(depends: Graph, packages: seq<Name>) returns (tree: Graph)
    ensures tree == TreeOf(depends, packages)
  {
    tree := map[];
    var todo := depends.Keys;
    while todo != {}
      invariant todo <= depends.Keys
      invariant tree == map p | p in depends && p !in todo && depends[p] != {} :: depends[p]
      decreases todo
    {
      var pkg :| pkg in todo;
      todo := todo - {pkg};
      tree := TreeDeps(tree, pkg, depends[pkg]);
    }
    tree := AddPackages(tree, packages);
  }

  predicate Fewest(tree: Graph, todo: set<Name>, k: Name)
    requires todo <= tree.Keys && k in tree
  {
    forall j :: j in todo ==> |tree[k]| <= |tree[j]|
  }

  lemma {:induction false} FewestExists(tree: Graph, todo: set<Name>)
    requires todo != {} && todo <= tree.Keys
    ensures exists k :: k in todo && Fewest(tree, todo, k)
    decreases todo
  {
    var x :| x in todo;
    var rest := todo - {x};
    if rest == {} {
      forall j | j in todo ensures j == x { assert j !in rest; }
      assert Fewest(tree, todo, x);
    } else {
      FewestExists(tree, rest);
      var k :| k in rest && Fewest(tree, rest, k);
      assert Fewest(tree, todo, if |tree[x]| <= |tree[k]| then x else k);
    }
  }

  lemma Appended(s: seq<Name>, x: Name)
    requires Distinct(s) && x !in Elems(s)
    ensures Distinct(s + [x]) && Elems(s + [x]) == Elems(s) + {x}
  {
  }

  /** The set of a package as a list, in some order. */
  method ListOf(deps: set<Name>) returns (list: seq<Name>)
    ensures Distinct(list) && Elems(list) == deps
  {
    list := [];
    var left := deps;
    while left != {}
      invariant left <= deps && Distinct(list) && Elems(list) == deps - left
      decreases left
    {
      var dep :| dep in left;
      Appended(list, dep);
      list := list + [dep];
      left := left - {dep};
    }
  }

  /** Keys with fewer dependencies come first. */
  ghost predicate Ranked(tree: Graph, keys: seq<Name>) {
    && Elems(keys) <= tree.Keys
    && forall i, j :: 0 <= i < j < |keys| ==> Size(tree, keys[i]) <= Size(tree, keys[j])
  }

  function Size(tree: Graph, k: Name): nat { if k in tree then |tree[k]| else 0 }

  lemma RankedAppend(tree: Graph, keys: seq<Name>, key: Name)
    requires Ranked(tree, keys) && key in tree
    requires forall k :: k in Elems(keys) ==> Size(tree, k) <= Size(tree, key)
    ensures Ranked(tree, keys + [key])
  {
    forall i | 0 <= i < |keys| ensures Size(tree, keys[i]) <= Size(tree, key) { assert keys[i] in Elems(keys); }
  }

  /** The ordered dictionary of lists, fewest dependencies first. */
  method SortedTree(tree: Graph) returns (keys: seq<Name>, deps: map<Name, seq<Name>>)
    ensures WellFormed(keys, deps) && GraphOf(deps) == tree && Ranked(tree, keys)
  {
    keys, deps := [], map[];
    var todo := tree.Keys;
    while todo != {}
      invariant todo <= tree.Keys && Distinct(keys) && Elems(keys) == deps.Keys == tree.Keys - todo
      invariant forall k :: k in deps ==> Distinct(deps[k]) && Elems(deps[k]) == tree[k]
      invariant forall k, j :: k in Elems(keys) && j in todo ==> Size(tree, k) <= Size(tree, j)
      invariant Ranked(tree, keys)
      decreases todo
    {
      hide Elems, Distinct, Ranked;
      FewestExists(tree, todo);
      var key :| key in todo && Fewest(tree, todo, key);
      var list := ListOf(tree[key]);
      Appended(keys, key);
      RankedAppend(tree, keys, key);
      keys := keys + [key];
      deps := deps[key := list];
      todo := todo - {key};
    }
  }

  /** The driver from the tree on: file k lists, each once, the packages whose
      longest chain in the driver's tree has k steps, and what is left over is
      what cannot be built. */
  method Plan(depends: Graph, packages: seq<Name>) returns (files: seq<seq<Name>>, left: set<Name>)
    ensures var g := TreeOf(depends, packages);
      && (forall k :: 0 <= k < |files| ==> Distinct(files[k]))
      && (forall k, p :: 0 <= k < |files| ==> (p in files[k] <==> LongestChain(g, p, k)))
      && (forall p :: p in g ==> (p in left <==> Doomed(g, p)))
      && (forall p :: p in g && p !in left ==> exists k :: 0 <= k < |files| && p in files[k])
  {
    hide *;
    var g := BuildTree(depends, packages);
    var keys, deps := SortedTree(g);
    var tree := new Tree(keys, deps);
    files := BuildOrder(tree);
    left := tree.deps.Keys;
  }

  method AddPackages(tree: Graph, packages: seq<Name>) returns (tree': Graph)
    ensures tree' == WithPackages(tree, packages)
  {
    hide WithPackages;
    tree' := tree;
    NoPackages(tree);
    for i := 0 to |packages|
      invariant tree' == WithPackages(tree, packages[..i])
    {
      OnePackage(tree, packages[..i], packages[i]);
      assert packages[..i + 1] == packages[..i] + [packages[i]];
      if packages[i] !in tree' && packages[i] != "." {
        tree' := tree'[packages[i] := {}];
      }
    }
    assert packages[..|packages|] == packages;
  }

  lemma NoPackages(tree: Graph)
    ensures WithPackages(tree, []) == tree
  {
  }

  lemma OnePackage(tree: Graph, packages: seq<Name>, p: Name)
    ensures var t := WithPackages(tree, packages);
      WithPackages(tree, packages + [p]) == if p in t || p == "." then t else t[p := {}]
  {
    var t, t' := WithPackages(tree, packages), WithPackages(tree, packages + [p]);
    assert forall q :: q in packages + [p] <==> q in packages || q == p;
    assert t'.Keys == if p == "." then t.Keys else t.Keys + {p};
    assert forall q :: q in t ==> t'[q] == t[q];
  }
}
