/** Grouping of atom indices into clusters: `connected_components` of
    pyxtal/crystal.py, which `merge_coordinate` uses to decide which close
    coordinates to merge into one site.

    A graph is an adjacency list over the indices 0..|g|-1: entry y lists the
    indices y is connected to. The source keeps its work lists (`seen`,
    `unseen`, `sets`) as mutable Python lists; here they are local sequences
    that the methods reassign. */
module Components {

  type Graph = seq<seq<nat>>

  /** Every listed neighbour is an index of the graph. */
  predicate WellFormed(g: Graph)
  {
    forall y, z :: 0 <= y < |g| && z in g[y] ==> z < |g|
  }

  /** Undirected: every connection is listed at both ends, as
      `find_short_dist` builds the graph. */
  predicate Symmetric(g: Graph)
    requires WellFormed(g)
  {
    forall y, z :: 0 <= y < |g| && z in g[y] ==> y in g[z]
  }

  predicate Distinct(s: seq<nat>)
  {
    forall i, j :: 0 <= i < j < |s| ==> s[i] != s[j]
  }

  predicate StrictlySorted(s: seq<nat>)
  {
    forall i, j :: 0 <= i < j < |s| ==> s[i] < s[j]
  }

  predicate InRange(s: seq<nat>, n: nat)
  {
    forall v :: v in s ==> v < n
  }

  predicate Prefix(a: seq<nat>, b: seq<nat>)
  {
    |a| <= |b| && b[..|a|] == a
  }

  predicate Disjoint(a: seq<nat>, b: seq<nat>)
  {
    forall v :: v in a ==> v !in b
  }

  /** All neighbours of y are listed in s. */
  predicate NeighborsIn(g: Graph, y: nat, s: seq<nat>)
  {
    y < |g| && forall z :: z in g[y] ==> z in s
  }

  /** s is closed under adjacency. */
  predicate Closed(g: Graph, s: seq<nat>)
  {
    forall y :: y in s ==> NeighborsIn(g, y, s)
  }

  /** p is a walk along the edges of g. */
  ghost predicate IsPath(g: Graph, p: seq<nat>)
  {
    |p| > 0 && forall i :: 0 <= i < |p| - 1 ==> p[i] < |g| && p[i + 1] in g[p[i]]
  }

  ghost predicate Reachable(g: Graph, x: nat, y: nat)
  {
    exists p :: IsPath(g, p) && p[0] == x && p[|p| - 1] == y
  }

  /** What one entry of the result of `connected_components` is: a list of
      distinct indices, starting with the index it was grown from, closed
      under adjacency and made only of indices reachable from that seed. */
  ghost predicate Component(g: Graph, c: seq<nat>)
  {
    && |c| > 0
    && Distinct(c)
    && InRange(c, |g|)
    && Closed(g, c)
    && forall y :: y in c ==> Reachable(g, c[0], y)
  }

  /** v is listed in some component of sets. */
  ghost predicate InSome(sets: seq<seq<nat>>, v: nat)
  {
    exists j :: 0 <= j < |sets| && v in sets[j]
  }

  /** The indices not yet listed in s: the termination measure of the
      recursive search. */
  function Unvisited(n: nat, s: seq<nat>): set<nat>
  {
    set v: nat | v < n && v !in s
  }

  // ---------------------------------------------------------------------
  // Paths

  lemma ReachableSelf(g: Graph, x: nat)
    ensures Reachable(g, x, x)
  {
    assert IsPath(g, [x]);
  }

  /** A path from y extends backwards along the edge x -> y. */
  lemma ReachableStep(g: Graph, x: nat, y: nat, z: nat)
    requires x < |g| && y in g[x]
    requires Reachable(g, y, z)
    ensures Reachable(g, x, z)
  {
    var p :| IsPath(g, p) && p[0] == y && p[|p| - 1] == z;
    var q := [x] + p;
    forall i | 0 <= i < |q| - 1
      ensures q[i] < |g| && q[i + 1] in g[q[i]]
    {
      if i > 0 {
        assert q[i] == p[i - 1] && q[i + 1] == p[i];
      }
    }
    assert IsPath(g, q) && q[0] == x && q[|q| - 1] == z;
  }

  lemma ReachableEdge(g: Graph, x: nat, y: nat)
    requires x < |g| && y in g[x]
    ensures Reachable(g, x, y)
  {
    ReachableSelf(g, y);
    ReachableStep(g, x, y, y);
  }

  function Reverse(p: seq<nat>): (r: seq<nat>)
    ensures |r| == |p|
    ensures forall i :: 0 <= i < |p| ==> r[i] == p[|p| - 1 - i]
  {
    if p == [] then [] else Reverse(p[1..]) + [p[0]]
  }

  /** In an undirected graph, reachability goes both ways. */
  lemma ReachableSymmetric(g: Graph, x: nat, y: nat)
    requires WellFormed(g) && Symmetric(g)
    requires Reachable(g, x, y)
    ensures Reachable(g, y, x)
  {
    var p :| IsPath(g, p) && p[0] == x && p[|p| - 1] == y;
    var q := Reverse(p);
    forall i | 0 <= i < |q| - 1
      ensures q[i] < |g| && q[i + 1] in g[q[i]]
    {
      var k := |p| - 2 - i;
      assert q[i] == p[k + 1] && q[i + 1] == p[k];
      assert p[k] < |g| && p[k + 1] in g[p[k]];
    }
    assert IsPath(g, q) && q[0] == y && q[|q| - 1] == x;
  }

  lemma {:induction false} PathStaysIn(g: Graph, s: seq<nat>, p: seq<nat>, i: nat)
    requires InRange(s, |g|) && Closed(g, s)
    requires IsPath(g, p) && p[0] in s
    requires i < |p|
    ensures p[i] in s
  {
    if i > 0 {
      PathStaysIn(g, s, p, i - 1);
      assert NeighborsIn(g, p[i - 1], s);
    }
  }

  /** A set closed under adjacency holds everything reachable from it. */
  lemma ClosedHoldsReachable(g: Graph, s: seq<nat>, x: nat, y: nat)
    requires InRange(s, |g|) && Closed(g, s)
    requires x in s && Reachable(g, x, y)
    ensures y in s
  {
    var p :| IsPath(g, p) && p[0] == x && p[|p| - 1] == y;
    PathStaysIn(g, s, p, |p| - 1);
  }

  /** Each entry of the result is exactly the connected component of its
      seed: it lists y if and only if y is reachable from the seed. */
  lemma ComponentIsReachableSet(g: Graph, c: seq<nat>, y: nat)
    requires Component(g, c)
    ensures y in c <==> Reachable(g, c[0], y)
  {
    if Reachable(g, c[0], y) {
      ClosedHoldsReachable(g, c, c[0], y);
    }
  }

  /** In an undirected graph, two components grown from seeds that are not
      listed in each other share no index. */
  lemma ComponentsDisjoint(g: Graph, c: seq<nat>, d: seq<nat>)
    requires WellFormed(g) && Symmetric(g)
    requires Component(g, c) && Component(g, d)
    requires c[0] !in d
    ensures Disjoint(c, d)
  {
    forall v | v in c
      ensures v !in d
    {
      if v in d {
        ReachableSymmetric(g, c[0], v);
        ClosedHoldsReachable(g, d, v, c[0]);
        assert false;
      }
    }
  }

  // ---------------------------------------------------------------------
  // Sequences used as Python lists

  lemma PrefixMembers(a: seq<nat>, b: seq<nat>)
    requires Prefix(a, b)
    ensures forall v :: v in a ==> v in b
  {
    forall v | v in a
      ensures v in b
    {
      var i :| 0 <= i < |a| && a[i] == v;
      assert b[i] == v;
    }
  }

  /** `list(range(n))` */
  function Indices(n: nat): (r: seq<nat>)
    ensures |r| == n
    ensures forall i :: 0 <= i < n ==> r[i] == i
  {
    if n == 0 then [] else Indices(n - 1) + [n - 1]
  }

  /** `list.remove(y)`: drop the first occurrence of y, keeping the order
      of the rest. */
  function Remove(s: seq<nat>, y: nat): (r: seq<nat>)
    requires y in s
    ensures |r| == |s| - 1
    ensures multiset(r) == multiset(s) - multiset{y}
  {
    if s[0] == y then
      assert s == [s[0]] + s[1..];
      s[1..]
    else
      assert s == [s[0]] + s[1..];
      [s[0]] + Remove(s[1..], y)
  }

  /** `list.index(y)`: the position of the first occurrence of y. */
  function FirstIndex(s: seq<nat>, y: nat): (k: nat)
    requires y in s
    ensures k < |s| && s[k] == y && y !in s[..k]
  {
    if s[0] == y then 0
    else
      assert s == [s[0]] + s[1..];
      var k := FirstIndex(s[1..], y);
      assert s[..k + 1] == [s[0]] + s[1..][..k];
      k + 1
  }

  /** The element removed is the first occurrence of y, and the others
      keep their order. */
  lemma {:induction false} RemoveFirst(s: seq<nat>, y: nat)
    requires y in s
    ensures Remove(s, y) == s[..FirstIndex(s, y)] + s[FirstIndex(s, y) + 1..]
  {
    if s[0] != y {
      RemoveFirst(s[1..], y);
      ConsSplit(s, FirstIndex(s[1..], y));
    }
  }

  lemma ConsSplit(s: seq<nat>, k: nat)
    requires k + 1 < |s|
    ensures [s[0]] + (s[1..][..k] + s[1..][k + 1..]) == s[..k + 1] + s[k + 2..]
  {
    assert [s[0]] + s[1..][..k] == s[..k + 1];
  }

  /** Removing from a strictly sorted list keeps it sorted and takes out
      exactly the removed value. */
  lemma {:induction false} RemoveSorted(s: seq<nat>, y: nat)
    requires StrictlySorted(s) && y in s
    ensures StrictlySorted(Remove(s, y))
    ensures forall v :: v in Remove(s, y) <==> v in s && v != y
  {
    var t := s[1..];
    assert StrictlySorted(t);
    assert forall v :: v in t ==> s[0] < v;
    if s[0] != y {
      RemoveSorted(t, y);
      var rt := Remove(t, y);
      var r := Remove(s, y);
      assert r == [s[0]] + rt;
      forall i, j | 0 <= i < j < |r|
        ensures r[i] < r[j]
      {
        if i > 0 {
          assert r[i] == rt[i - 1] && r[j] == rt[j - 1];
        } else {
          assert r[j] == rt[j - 1] && rt[j - 1] in rt;
        }
      }
    }
  }

  lemma InSomeAppend(sets: seq<seq<nat>>, c: seq<nat>, v: nat)
    ensures InSome(sets + [c], v) <==> InSome(sets, v) || v in c
  {
    var all := sets + [c];
    if InSome(sets, v) {
      var j :| 0 <= j < |sets| && v in sets[j];
      assert all[j] == sets[j];
    }
    if v in c {
      assert all[|sets|] == c;
    }
    if InSome(all, v) {
      var j :| 0 <= j < |all| && v in all[j];
      if j < |sets| {
        assert all[j] == sets[j];
      }
    }
  }

  // ---------------------------------------------------------------------
  // The search

  /** `add_neighbors(el, seen)`: depth-first search from el that appends to
      `seen` every index reachable from el that it does not list yet. Called
      with an empty list, it starts from [el], as the source's default
      argument does. */
  method AddNeighbors(g: Graph, el: nat, seen: seq<nat>) returns (r: seq<nat>)
    requires WellFormed(g) && el < |g|
    requires Distinct(seen) && InRange(seen, |g|)
    requires seen == [] || el in seen
    ensures Prefix(seen, r)
    ensures seen == [] ==> |r| > 0 && r[0] == el
    ensures Distinct(r) && InRange(r, |g|) && el in r
    ensures NeighborsIn(g, el, r)
    ensures forall i :: |seen| <= i < |r| ==> NeighborsIn(g, r[i], r) && Reachable(g, el, r[i])
    ensures seen == [] ==> Component(g, r)
    decreases Unvisited(|g|, seen)
  {
    var s: seq<nat> := if seen == [] then [el] else seen;
    ghost var s0 := s;
    assert Prefix(seen, s0) && Searching(g, el, s0, s);
    for k := 0 to |g[el]|
      invariant Searching(g, el, s0, s)
      invariant Covers(g[el][..k], s)
    {
      var x := g[el][k];
      ghost var before := s;
      if x !in s {
        assert x in g[el] && x < |g|;
        PrepareVisit(|g|, seen, s0, s, x);
        var extended: seq<nat> := s + [x];
        s := AddNeighbors(g, x, extended);
        VisitExtends(g, el, x, s0, before, s);
      }
      CoversStep(g[el], k, before, s);
    }
    assert g[el][..|g[el]|] == g[el];
    r := s;
    FinishSearch(g, el, seen, s0, r);
  }

  /** Every element of xs is listed in s. */
  predicate Covers(xs: seq<nat>, s: seq<nat>)
  {
    forall z :: z in xs ==> z in s
  }

  lemma CoversStep(xs: seq<nat>, k: nat, before: seq<nat>, after: seq<nat>)
    requires k < |xs| && Covers(xs[..k], before) && xs[k] in after
    requires forall v :: v in before ==> v in after
    ensures Covers(xs[..k + 1], after)
  {
    assert xs[..k + 1] == xs[..k] + [xs[k]];
  }

  /** The facts the loop of `add_neighbors` keeps about the list s it grows
      from its starting list s0. */
  ghost predicate Searching(g: Graph, el: nat, s0: seq<nat>, s: seq<nat>)
  {
    && Prefix(s0, s)
    && Distinct(s) && InRange(s, |g|) && el in s
    && forall i :: |s0| <= i < |s| ==> NeighborsIn(g, s[i], s) && Reachable(g, el, s[i])
  }

  /** When the loop of `add_neighbors` is over, its result is what the
      search promises. */
  lemma FinishSearch(g: Graph, el: nat, seen: seq<nat>, s0: seq<nat>, r: seq<nat>)
    requires el < |g| && s0 == (if seen == [] then [el] else seen)
    requires Searching(g, el, s0, r)
    requires Covers(g[el], r)
    ensures Prefix(seen, r)
    ensures seen == [] ==> |r| > 0 && r[0] == el
    ensures Distinct(r) && InRange(r, |g|) && el in r
    ensures NeighborsIn(g, el, r)
    ensures forall i :: |seen| <= i < |r| ==> NeighborsIn(g, r[i], r) && Reachable(g, el, r[i])
    ensures seen == [] ==> Component(g, r)
  {
    assert r[..|s0|] == s0;
    if seen == [] {
      assert r[0] == el;
      ReachableSelf(g, el);
      forall y | y in r
        ensures NeighborsIn(g, y, r) && Reachable(g, el, y)
      {
        var i :| 0 <= i < |r| && r[i] == y;
      }
    }
  }

  /** Appending an index not yet listed keeps the list distinct and in
      range, and shrinks the set of unvisited indices below what it was
      when the search was called. */
  lemma PrepareVisit(n: nat, seen: seq<nat>, s0: seq<nat>, s: seq<nat>, x: nat)
    requires Prefix(seen, s0) && Prefix(s0, s)
    requires Distinct(s) && InRange(s, n) && x < n && x !in s
    ensures Distinct(s + [x]) && InRange(s + [x], n) && x in s + [x]
    ensures Unvisited(n, s + [x]) < Unvisited(n, seen)
  {
    PrefixMembers(seen, s0);
    PrefixMembers(s0, s);
    assert x in Unvisited(n, seen) && x !in Unvisited(n, s + [x]);
  }

  /** What one recursive call inside the loop of `add_neighbors` adds keeps
      the loop's facts: the new indices are reachable from el through x, and
      their neighbours are listed. */
  lemma VisitExtends(g: Graph, el: nat, x: nat, s0: seq<nat>, before: seq<nat>, after: seq<nat>)
    requires el < |g| && x in g[el]
    requires Searching(g, el, s0, before)
    requires Prefix(before + [x], after) && Distinct(after) && InRange(after, |g|)
    requires NeighborsIn(g, x, after)
    requires forall i :: |before| + 1 <= i < |after| ==> NeighborsIn(g, after[i], after) && Reachable(g, x, after[i])
    ensures Searching(g, el, s0, after) && x in after
    ensures forall v :: v in before ==> v in after
  {
    assert after[|before|] == x;
    assert Prefix(before, after) by {
      assert after[..|before|] == (after[..|before| + 1])[..|before|];
    }
    PrefixMembers(before, after);
    forall i | |s0| <= i < |after|
      ensures NeighborsIn(g, after[i], after) && Reachable(g, el, after[i])
    {
      if i < |before| {
        assert after[i] == before[i];
        assert NeighborsIn(g, before[i], before);
      } else if i == |before| {
        ReachableEdge(g, el, x);
      } else {
        ReachableStep(g, el, x, after[i]);
      }
    }
    assert after[..|s0|] == (after[..|before|])[..|s0|];
  }

  /** `connected_components(graph)`: repeatedly take the highest index not
      yet grouped, grow its component by depth-first search and strike the
      component's indices from the list of ungrouped ones. */
  method ConnectedComponents(g: Graph) returns (sets: seq<seq<nat>>)
    requires WellFormed(g)
    ensures |sets| <= |g|
    ensures forall i :: 0 <= i < |sets| ==> |sets[i]| > 0 && Component(g, sets[i])
    ensures forall v :: 0 <= v < |g| ==> InSome(sets, v)
    ensures forall i, j :: 0 <= i < j < |sets| ==> sets[j][0] < sets[i][0] && sets[j][0] !in sets[i]
    ensures SeedsMaximal(g, sets)
    ensures Symmetric(g) ==> forall i, j :: 0 <= i < j < |sets| ==> Disjoint(sets[i], sets[j])
    ensures Symmetric(g) ==> forall i, y :: 0 <= i < |sets| && y in sets[i] ==> y <= sets[i][0]
  {
    var unseen := Indices(|g|);
    sets := [];
    forall v | 0 <= v < |g|
      ensures v in unseen && !InSome(sets, v)
    {
      assert unseen[v] == v;
    }
    var i := 0;
    while unseen != []
      invariant i == |sets| && |sets| + |unseen| <= |g|
      invariant Grouped(g, sets, unseen)
      invariant SeedsMaximal(g, sets)
      decreases |unseen|
    {
      ghost var unseen0 := unseen;
      ghost var sets0 := sets;
      var x := unseen[|unseen| - 1];
      assert x in unseen;
      unseen := unseen[..|unseen| - 1];
      var comp := AddNeighbors(g, x, []);
      sets := sets + [[]];
      var c;
      c, unseen := CollectComponent(comp, unseen);
      sets := sets[i := c];
      assert sets == sets0 + [comp];
      SeedStep(g, sets0, unseen0, comp);
      IterationPreserves(g, sets0, unseen0, comp, unseen);
      i := i + 1;
    }
  }

  /** The inner loop of `connected_components`: append every index of the
      component to the new entry and strike it from `unseen` if it is still
      there. */
  method CollectComponent(comp: seq<nat>, unseen0: seq<nat>) returns (c: seq<nat>, unseen: seq<nat>)
    requires StrictlySorted(unseen0)
    ensures c == comp
    ensures StrictlySorted(unseen) && |unseen| <= |unseen0|
    ensures forall v :: v in unseen <==> v in unseen0 && v !in comp
  {
    c, unseen := [], unseen0;
    for k := 0 to |comp|
      invariant c == comp[..k]
      invariant StrictlySorted(unseen) && |unseen| <= |unseen0|
      invariant forall v :: v in unseen <==> v in unseen0 && v !in comp[..k]
    {
      var y := comp[k];
      c := c + [y];
      if y in unseen {
        RemoveSorted(unseen, y);
        unseen := Remove(unseen, y);
      }
      assert comp[..k + 1] == comp[..k] + [y];
    }
    assert comp[..|comp|] == comp;
  }

  /** The facts the outer loop of `connected_components` keeps: `unseen`
      is increasing and lists exactly the indices in no entry yet; every
      entry is a component whose seed exceeds every unseen index; seeds
      decrease and none lies in an earlier entry; and, for an undirected
      graph, entries are disjoint and each seed is the largest index of
      its entry. */
  ghost predicate Grouped(g: Graph, sets: seq<seq<nat>>, unseen: seq<nat>)
  {
    && WellFormed(g)
    && StrictlySorted(unseen) && InRange(unseen, |g|)
    && (forall j :: 0 <= j < |sets| ==> |sets[j]| > 0 && Component(g, sets[j]))
    && (forall v :: 0 <= v < |g| ==> (v in unseen <==> !InSome(sets, v)))
    && (forall j, v :: 0 <= j < |sets| && v in unseen ==> v < sets[j][0])
    && (forall j, l :: 0 <= j < l < |sets| ==> sets[l][0] < sets[j][0] && sets[l][0] !in sets[j])
    && (Symmetric(g) ==> forall j, l :: 0 <= j < l < |sets| ==> Disjoint(sets[j], sets[l]))
    && (Symmetric(g) ==> forall j, y :: 0 <= j < |sets| && y in sets[j] ==> y <= sets[j][0])
  }

  /** Each entry starts at the largest index in no earlier entry. */
  ghost predicate SeedsMaximal(g: Graph, sets: seq<seq<nat>>)
  {
    forall i, v: nat :: 0 <= i < |sets| && |sets[i]| > 0 && v < |g| && !InSome(sets[..i], v) ==> v <= sets[i][0]
  }

  /** A new entry seeded at the largest unseen index keeps every seed
      maximal. */
  lemma SeedStep(g: Graph, sets0: seq<seq<nat>>, unseen0: seq<nat>, comp: seq<nat>)
    requires unseen0 != [] && Grouped(g, sets0, unseen0) && SeedsMaximal(g, sets0)
    requires |comp| > 0 && comp[0] == unseen0[|unseen0| - 1]
    ensures SeedsMaximal(g, sets0 + [comp])
  {
    var sets := sets0 + [comp];
    forall i, v: nat | 0 <= i < |sets| && |sets[i]| > 0 && v < |g| && !InSome(sets[..i], v)
      ensures v <= sets[i][0]
    {
      assert sets[..i] == sets0[..i];
      if i == |sets0| {
        assert sets0[..i] == sets0;
        assert v in unseen0;
        var k :| 0 <= k < |unseen0| && unseen0[k] == v;
      } else {
        assert sets[i] == sets0[i];
      }
    }
  }

  /** One round of the outer loop of `connected_components` keeps the
      bookkeeping facts that the result is built from. */
  lemma IterationPreserves(g: Graph, sets0: seq<seq<nat>>, unseen0: seq<nat>,
                           comp: seq<nat>, unseen: seq<nat>)
    requires WellFormed(g)
    requires unseen0 != [] && Grouped(g, sets0, unseen0)
    requires Component(g, comp) && comp[0] == unseen0[|unseen0| - 1]
    requires StrictlySorted(unseen)
    requires forall v :: v in unseen <==> v in unseen0[..|unseen0| - 1] && v !in comp
    ensures Grouped(g, sets0 + [comp], unseen)
  {
    var sets := sets0 + [comp];
    var n := |unseen0|;
    var x := unseen0[n - 1];
    assert x in unseen0;
    forall j | 0 <= j < |sets|
      ensures |sets[j]| > 0 && Component(g, sets[j])
    {
      if j < |sets0| { assert sets[j] == sets0[j]; }
    }
    forall v | 0 <= v < |g|
      ensures v in unseen <==> !InSome(sets, v)
    {
      InSomeAppend(sets0, comp, v);
      if v in unseen0[..n - 1] {
        assert v in unseen0;
      }
      if v in unseen0 && v != x {
        var k :| 0 <= k < n && unseen0[k] == v;
        assert unseen0[..n - 1][k] == v;
      }
    }
    forall j, v | 0 <= j < |sets| && v in unseen
      ensures v < sets[j][0]
    {
      var k :| 0 <= k < n - 1 && unseen0[..n - 1][k] == v;
      assert v < x;
      if j < |sets0| { assert sets[j] == sets0[j]; }
    }
    if Symmetric(g) {
      forall j, l | 0 <= j < l < |sets|
        ensures Disjoint(sets[j], sets[l])
      {
        if l < |sets0| {
          assert sets[j] == sets0[j] && sets[l] == sets0[l];
        } else {
          assert sets[j] == sets0[j] && sets[l] == comp;
          ComponentsDisjoint(g, comp, sets0[j]);
          forall v | v in sets0[j] ensures v !in comp { }
        }
      }
      forall j, y | 0 <= j < |sets| && y in sets[j]
        ensures y <= sets[j][0]
      {
        if j < |sets0| {
          assert sets[j] == sets0[j];
        } else {
          assert sets[j] == comp;
          forall l | 0 <= l < |sets0| ensures y !in sets0[l] {
            ComponentsDisjoint(g, comp, sets0[l]);
          }
          assert !InSome(sets0, y);
          var k :| 0 <= k < n && unseen0[k] == y;
        }
      }
    }
  }
}
