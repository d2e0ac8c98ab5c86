/** iterate_leaves: build rounds by repeated removal of packages that have no
    dependencies left, and what the rounds mean in terms of dependency chains. */
module BuildRounds {
  import opened DependencyGraph

  // ------------------------------------------------------------- sequences

  function Elems(s: seq<Name>): set<Name> {
    set x | x in s
  }

  ghost predicate Distinct(s: seq<Name>) {
    forall i, j :: 0 <= i < j < |s| ==> s[i] != s[j]
  }

  /** The elements of s that lie in m, in their order. */
  function Keep(s: seq<Name>, m: set<Name>): seq<Name> {
    if s == [] then []
    else (if s[0] in m then [s[0]] else []) + Keep(s[1..], m)
  }

  lemma KeepElems(s: seq<Name>, m: set<Name>)
    ensures forall x :: x in Keep(s, m) <==> x in s && x in m
  {
  }

  lemma {:induction false} KeepDistinct(s: seq<Name>, m: set<Name>)
    requires Distinct(s)
    ensures Distinct(Keep(s, m))
  {
    if s != [] {
      KeepDistinct(s[1..], m);
      KeepElems(s[1..], m);
      var r := Keep(s[1..], m);
      forall i, j | 0 <= i < j < |Keep(s, m)| ensures Keep(s, m)[i] != Keep(s, m)[j] {
        if s[0] in m {
          assert Keep(s, m)[j] == r[j - 1];
          assert i > 0 ==> Keep(s, m)[i] == r[i - 1];
          assert r[j - 1] in r && s[0] !in s[1..];
        }
      }
    }
  }

  lemma {:induction false} KeepKeep(s: seq<Name>, a: set<Name>, b: set<Name>)
    ensures Keep(Keep(s, a), b) == Keep(s, a * b)
  {
    if s != [] {
      KeepKeep(s[1..], a, b);
      if s[0] in a {
        assert Keep(s, a)[1..] == Keep(s[1..], a);
      } else {
        assert Keep(s, a) == Keep(s[1..], a);
      }
    }
  }

  lemma {:induction false} KeepAll(s: seq<Name>, m: set<Name>)
    requires forall x :: x in s ==> x in m
    ensures Keep(s, m) == s
  {
    if s != [] {
      KeepAll(s[1..], m);
    }
  }

  lemma {:induction false} KeepSame(s: seq<Name>, a: set<Name>, b: set<Name>)
    requires forall x :: x in s ==> (x in a <==> x in b)
    ensures Keep(s, a) == Keep(s, b)
  {
    if s != [] {
      KeepSame(s[1..], a, b);
    }
  }

  lemma {:induction false} KeepAppend(s: seq<Name>, x: Name, m: set<Name>)
    ensures Keep(s + [x], m) == Keep(s, m) + (if x in m then [x] else [])
  {
    if s != [] {
      assert (s + [x])[1..] == s[1..] + [x];
      KeepAppend(s[1..], x, m);
    } else {
      assert s + [x] == [x];
    }
  }

  lemma {:induction false} KeepShorter(s: seq<Name>, m: set<Name>, x: Name)
    ensures |Keep(s, m)| <= |s|
    ensures x in s && x !in m ==> |Keep(s, m)| < |s|
  {
    if s != [] {
      KeepShorter(s[1..], m, x);
    }
  }

  /** list.remove(x): without the first occurrence of x. */
  function Remove(s: seq<Name>, x: Name): seq<Name> {
    if s == [] then [] else if s[0] == x then s[1..] else [s[0]] + Remove(s[1..], x)
  }

  lemma {:induction false} RemoveDistinct(s: seq<Name>, x: Name)
    requires Distinct(s)
    ensures Distinct(Remove(s, x))
    ensures forall y :: y in Remove(s, x) <==> y in s && y != x
  {
    if s != [] {
      if s[0] == x {
        assert x !in s[1..];
      } else {
        RemoveDistinct(s[1..], x);
        var r := Remove(s[1..], x);
        assert s[0] !in s[1..];
        var t := [s[0]] + r;
        assert forall j :: 1 <= j < |t| ==> t[j] in r;
      }
    }
  }

  // ---------------------------------------------------------------- layers

  /** What has been built before round k: at first nothing, then every package
      all of whose dependencies have been built. */
  function Layer(g: Graph, k: nat): set<Name> {
    if k == 0 then {} else set p | p in g && g[p] <= Layer(g, k - 1)
  }

  /** The packages of round k. */
  function Round(g: Graph, k: nat): set<Name> {
    Layer(g, k + 1) - Layer(g, k)
  }

  lemma {:induction false} LayersGrow(g: Graph, j: nat, k: nat)
    requires j <= k
    ensures Layer(g, j) <= Layer(g, k) <= g.Keys
    decreases k
  {
    if j < k {
      LayersGrow(g, j, k - 1);
      if k >= 2 {
        LayersGrow(g, k - 2, k - 1);
      }
    } else if k > 0 {
      LayersGrow(g, k - 1, k - 1);
    }
  }

  lemma {:induction false} LayersStop(g: Graph, n: nat, k: nat)
    requires n <= k && Layer(g, n + 1) == Layer(g, n)
    ensures Layer(g, k) == Layer(g, n)
    decreases k
  {
    if n < k {
      LayersStop(g, n, k - 1);
    }
  }

  /** No package is in two rounds. */
  lemma RoundsDisjoint(g: Graph, j: nat, k: nat)
    requires j < k
    ensures Round(g, j) !! Round(g, k)
  {
    LayersGrow(g, j + 1, k);
  }

  /** What has been built before round n was built in one of the rounds. */
  lemma {:induction false} RoundOf(g: Graph, p: Name, n: nat) returns (k: nat)
    requires p in Layer(g, n)
    ensures k < n && p in Round(g, k)
    decreases n
  {
    if p in Layer(g, n - 1) {
      k := RoundOf(g, p, n - 1);
    } else {
      k := n - 1;
    }
  }

  // ------------------------------------------------- layers against chains

  /** Every chain that starts at p has at most k packages and meets no other names. */
  ghost predicate ChainsWithin(g: Graph, p: Name, k: nat) {
    forall q :: IsPath(g, q) && q[0] == p ==> |q| <= k && forall i :: 0 <= i < |q| ==> q[i] in g
  }

  lemma TailIsPath(g: Graph, q: seq<Name>)
    requires IsPath(g, q) && |q| >= 2
    ensures IsPath(g, q[1..]) && q[1] in Deps(g, q[0])
  {
    assert q[0 + 1] in Deps(g, q[0]);
    forall i | 0 <= i < |q[1..]| - 1 ensures q[1..][i + 1] in Deps(g, q[1..][i]) {
      assert q[i + 1 + 1] in Deps(g, q[i + 1]);
    }
  }

  lemma ConsIsPath(g: Graph, p: Name, q: seq<Name>)
    requires IsPath(g, q) && q[0] in Deps(g, p)
    ensures IsPath(g, [p] + q)
  {
    var r := [p] + q;
    forall i | 0 <= i < |r| - 1 ensures r[i + 1] in Deps(g, r[i]) {
      if i > 0 {
        assert q[i - 1 + 1] in Deps(g, q[i - 1]);
      }
    }
  }

  /** A package is built before round k exactly when its chains have at most k packages. */
  lemma {:induction false} LayerMeaning(g: Graph, p: Name, k: nat)
    ensures p in Layer(g, k) <==> ChainsWithin(g, p, k)
    decreases k
  {
    if k == 0 {
      assert IsPath(g, [p]);
    } else {
      if p in Layer(g, k) {
        forall q | IsPath(g, q) && q[0] == p
          ensures |q| <= k && forall i :: 0 <= i < |q| ==> q[i] in g
        {
          LayerBounds(g, p, k, q);
        }
      }
      if ChainsWithin(g, p, k) {
        assert IsPath(g, [p]) && [p][0] == p;
        assert p in g by { assert [p][0] in g; }
        forall d | d in g[p] ensures d in Layer(g, k - 1) {
          LayerMeaning(g, d, k - 1);
          forall q | IsPath(g, q) && q[0] == d
            ensures |q| <= k - 1 && forall i :: 0 <= i < |q| ==> q[i] in g
          {
            ConsIsPath(g, p, q);
            var r := [p] + q;
            assert r[0] == p;
            forall i | 0 <= i < |q| ensures q[i] in g { assert r[i + 1] in g; }
          }
        }
      }
    }
  }

  lemma {:induction false} LayerBounds(g: Graph, p: Name, k: nat, q: seq<Name>)
    requires p in Layer(g, k) && IsPath(g, q) && q[0] == p
    ensures |q| <= k && forall i :: 0 <= i < |q| ==> q[i] in g
    decreases k
  {
    if |q| >= 2 {
      TailIsPath(g, q);
      LayerBounds(g, q[1], k - 1, q[1..]);
      forall i | 0 <= i < |q| ensures q[i] in g {
        if i > 0 { assert q[i] == q[1..][i - 1]; }
      }
    }
  }

  /** k dependency steps are possible from p, more are not, and every name met is a package. */
  ghost predicate LongestChain(g: Graph, p: Name, k: nat) {
    && (exists q :: IsPath(g, q) && q[0] == p && |q| == k + 1)
    && ChainsWithin(g, p, k + 1)
  }

  /** Round k holds exactly the packages whose longest dependency chain has k steps. */
  lemma RoundMeaning(g: Graph, p: Name, k: nat)
    ensures p in Round(g, k) <==> LongestChain(g, p, k)
  {
    LayerMeaning(g, p, k);
    LayerMeaning(g, p, k + 1);
    if p in Round(g, k) {
      var q :| IsPath(g, q) && q[0] == p && !(|q| <= k && forall i :: 0 <= i < |q| ==> q[i] in g);
      assert |q| == k + 1;
    }
    if LongestChain(g, p, k) {
      var q :| IsPath(g, q) && q[0] == p && |q| == k + 1;
      assert !ChainsWithin(g, p, k);
    }
  }

  // ------------------------------------------------------------- deadlocks

  /** p depends, directly or not, on a name that is no package or on a cycle. */
  ghost predicate Doomed(g: Graph, p: Name) {
    || (exists q :: IsPath(g, q) && q[0] == p && Leaves(g, q))
    || (exists q :: IsPath(g, q) && q[0] == p && Loops(q))
  }

  ghost predicate Leaves(g: Graph, q: seq<Name>) {
    exists i :: 0 <= i < |q| && q[i] !in g
  }

  ghost predicate Loops(q: seq<Name>) {
    exists i, j :: 0 <= i < j < |q| && q[i] == q[j]
  }

  /** More elements than a set has cannot all be different members of it. */
  lemma {:induction false} Pigeonhole(q: seq<Name>, m: set<Name>)
    requires |q| > |m| && forall i :: 0 <= i < |q| ==> q[i] in m
    ensures Loops(q)
    decreases |m|
  {
    var x := q[0];
    if x in q[1..] {
      var j :| 0 <= j < |q[1..]| && q[1..][j] == x;
      assert q[0] == q[j + 1];
    } else {
      forall i | 0 <= i < |q[1..]| ensures q[1..][i] in m - {x} { assert q[1..][i] == q[i + 1]; }
      Pigeonhole(q[1..], m - {x});
      var i, j :| 0 <= i < j < |q[1..]| && q[1..][i] == q[1..][j];
      assert q[i + 1] == q[j + 1];
    }
  }

  /** A chain that meets a package twice can go round once more. */
  lemma GoRound(g: Graph, q: seq<Name>) returns (r: seq<Name>)
    requires IsPath(g, q) && Loops(q)
    ensures IsPath(g, r) && Loops(r) && r[0] == q[0] && |r| > |q|
  {
    var i, j :| 0 <= i < j < |q| && q[i] == q[j];
    r := q[..j] + q[i..];
    forall k | 0 <= k < |r| - 1 ensures r[k + 1] in Deps(g, r[k]) {
      if k < j - 1 {
        assert q[k + 1] in Deps(g, q[k]);
      } else if k == j - 1 {
        assert q[k + 1] in Deps(g, q[k]);
      } else {
        assert q[k - j + i + 1] in Deps(g, q[k - j + i]);
      }
    }
    assert r[i] == q[i] && r[j] == q[i];
  }

  lemma {:induction false} LongerThan(g: Graph, q: seq<Name>, n: nat) returns (r: seq<Name>)
    requires IsPath(g, q) && Loops(q)
    ensures IsPath(g, r) && r[0] == q[0] && |r| > n
    decreases n - |q|
  {
    if |q| > n {
      r := q;
    } else {
      r := GoRound(g, q);
      r := LongerThan(g, r, n);
    }
  }

  /** What is left when no further package can be built is exactly what is doomed. */
  lemma RemainderMeaning(g: Graph, p: Name, n: nat)
    requires p in g && Layer(g, n + 1) == Layer(g, n)
    ensures p !in Layer(g, n) <==> Doomed(g, p)
  {
    if p !in Layer(g, n) {
      var k := if |g| > n then |g| else n;
      LayersStop(g, n, k);
      LayerMeaning(g, p, k);
      var q :| IsPath(g, q) && q[0] == p && !(|q| <= k && forall i :: 0 <= i < |q| ==> q[i] in g);
      if !Leaves(g, q) {
        assert |g| == |g.Keys|;
        Pigeonhole(q, g.Keys);
      }
    }
    if Doomed(g, p) {
      LayerMeaning(g, p, n);
      if exists q :: IsPath(g, q) && q[0] == p && Loops(q) {
        var q :| IsPath(g, q) && q[0] == p && Loops(q);
        var r := LongerThan(g, q, n);
        assert !ChainsWithin(g, p, n);
      }
    }
  }
}
