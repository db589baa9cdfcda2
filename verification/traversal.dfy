/**
 * Traversal primitives over a FlowSet: a visited-set worklist search in
 * either direction (along OutEdges or InEdges), its characterisation by
 * paths, and cycle detection with strongly connected components.
 */
module Traversal {
  import opened FlowManip

  /** The neighbours of x: forward along out-edges, backward along in-edges. */
  function Succ(fs: FlowSet, forward: bool, x: Id): seq<Id>
  {
    if forward then OutEdges(fs, x) else InEdges(fs, x)
  }

  /** A non-empty sequence of known nodes, each a neighbour of the one before it. */
  ghost predicate IsPath(fs: FlowSet, forward: bool, p: seq<Id>)
  {
    && |p| > 0
    && (forall i :: 0 <= i < |p| ==> p[i] in fs.byId)
    && (forall i :: 0 < i < |p| ==> p[i] in Succ(fs, forward, p[i - 1]))
  }

  ghost predicate PathFromTo(fs: FlowSet, forward: bool, p: seq<Id>, a: Id, b: Id)
  {
    IsPath(fs, forward, p) && p[0] == a && p[|p| - 1] == b
  }

  /** b can be reached from a (a itself included) by following edges. */
  ghost predicate Reachable(fs: FlowSet, forward: bool, a: Id, b: Id)
  {
    exists p :: PathFromTo(fs, forward, p, a, b)
  }

  lemma ReachableRefl(fs: FlowSet, forward: bool, a: Id)
    requires a in fs.byId
    ensures Reachable(fs, forward, a, a)
  {
    assert PathFromTo(fs, forward, [a], a, a);
  }

  /** Paths compose: Reachable is transitive. */
  lemma ReachableTrans(fs: FlowSet, forward: bool, a: Id, b: Id, c: Id)
    requires Reachable(fs, forward, a, b) && Reachable(fs, forward, b, c)
    ensures Reachable(fs, forward, a, c)
  {
    var p :| PathFromTo(fs, forward, p, a, b);
    var q :| PathFromTo(fs, forward, q, b, c);
    var r := p + q[1..];
    forall i | 0 < i < |r| ensures r[i] in Succ(fs, forward, r[i - 1]) {
      if i >= |p| {
        assert r[i] == q[i - |p| + 1];
        assert r[i - 1] == q[i - |p|];
      }
    }
    assert PathFromTo(fs, forward, r, a, c);
  }

  /** One step followed by a path is a path. */
  lemma ReachablePrepend(fs: FlowSet, forward: bool, a: Id, b: Id, c: Id)
    requires a in fs.byId && b in Succ(fs, forward, a)
    requires Reachable(fs, forward, b, c)
    ensures Reachable(fs, forward, a, c)
  {
    var q :| PathFromTo(fs, forward, q, b, c);
    var r := [a] + q;
    assert forall i :: 0 < i < |r| ==> r[i] == q[i - 1];
    assert PathFromTo(fs, forward, r, a, c);
  }

  /**
   * The worklist search: take the first id of the frontier; skip it when it is
   * unknown (a dangling reference) or already visited; otherwise visit it and
   * push its neighbours in front of the rest of the frontier. Returns the
   * visited ids in visiting order.
   */
  function Explore(fs: FlowSet, forward: bool, frontier: seq<Id>, visited: seq<Id>): (r: seq<Id>)
    requires Elems(visited) <= fs.byId.Keys && Distinct(visited)
    ensures |visited| <= |r| && r[..|visited|] == visited
    ensures Elems(r) <= fs.byId.Keys && Distinct(r)
    decreases |fs.byId.Keys - Elems(visited)|, |frontier|
  {
    if frontier == [] then visited
    else
      var x := frontier[0];
      if x !in fs.byId || x in visited then
        Explore(fs, forward, frontier[1..], visited)
      else
        var visited' := visited + [x];
        VisitShrinks(fs.byId.Keys, visited, x);
        var r := Explore(fs, forward, Succ(fs, forward, x) + frontier[1..], visited');
        assert r[..|visited|] == r[..|visited'|][..|visited|];
        r
  }

  /** One step of the search when the first frontier id is unknown or already visited. */
  lemma ExploreSkip(fs: FlowSet, forward: bool, frontier: seq<Id>, visited: seq<Id>)
    requires Elems(visited) <= fs.byId.Keys && Distinct(visited)
    requires frontier != [] && (frontier[0] !in fs.byId || frontier[0] in visited)
    ensures Explore(fs, forward, frontier, visited) == Explore(fs, forward, frontier[1..], visited)
  {
  }

  /** One step of the search when the first frontier id is known and new. */
  lemma ExploreVisit(fs: FlowSet, forward: bool, frontier: seq<Id>, visited: seq<Id>)
    requires Elems(visited) <= fs.byId.Keys && Distinct(visited)
    requires frontier != [] && frontier[0] in fs.byId && frontier[0] !in visited
    ensures Elems(visited + [frontier[0]]) <= fs.byId.Keys && Distinct(visited + [frontier[0]])
    ensures Explore(fs, forward, frontier, visited) ==
      Explore(fs, forward, Succ(fs, forward, frontier[0]) + frontier[1..], visited + [frontier[0]])
  {
    VisitShrinks(fs.byId.Keys, visited, frontier[0]);
  }

  /** Visiting a new known node keeps the visited list distinct and shrinks the unvisited set. */
  lemma VisitShrinks(keys: set<Id>, visited: seq<Id>, x: Id)
    requires Elems(visited) <= keys && Distinct(visited)
    requires x in keys && x !in visited
    ensures Elems(visited + [x]) == Elems(visited) + {x} <= keys
    ensures Distinct(visited + [x])
    ensures |keys - Elems(visited + [x])| < |keys - Elems(visited)|
  {
    var v' := visited + [x];
    assert forall y :: y in v' <==> y in visited || y == x;
    assert Elems(v') == Elems(visited) + {x};
    assert keys - Elems(visited) == (keys - Elems(v')) + {x};
  }

  /** Every edge out of a visited node leads to a visited node or into the frontier. */
  ghost predicate Closed(fs: FlowSet, forward: bool, visited: seq<Id>, frontier: seq<Id>)
  {
    forall v, t :: v in visited && t in Succ(fs, forward, v) && t in fs.byId ==> t in visited || t in frontier
  }

  lemma {:induction false} ExploreClosed(fs: FlowSet, forward: bool, frontier: seq<Id>, visited: seq<Id>)
    requires Elems(visited) <= fs.byId.Keys && Distinct(visited)
    requires Closed(fs, forward, visited, frontier)
    ensures Closed(fs, forward, Explore(fs, forward, frontier, visited), [])
    decreases |fs.byId.Keys - Elems(visited)|, |frontier|
  {
    if frontier != [] {
      var x := frontier[0];
      if x !in fs.byId || x in visited {
        forall v, t | v in visited && t in Succ(fs, forward, v) && t in fs.byId
          ensures t in visited || t in frontier[1..]
        {
          assert t in frontier ==> t == x || t in frontier[1..];
        }
        ExploreClosed(fs, forward, frontier[1..], visited);
      } else {
        var visited' := visited + [x];
        VisitShrinks(fs.byId.Keys, visited, x);
        var frontier' := Succ(fs, forward, x) + frontier[1..];
        forall v, t | v in visited' && t in Succ(fs, forward, v) && t in fs.byId
          ensures t in visited' || t in frontier'
        {
          if v != x {
            assert t in frontier ==> t == x || t in frontier[1..];
          }
        }
        ExploreClosed(fs, forward, frontier', visited');
      }
    }
  }

  lemma {:induction false} ExploreSound(fs: FlowSet, forward: bool, frontier: seq<Id>, visited: seq<Id>)
    requires Elems(visited) <= fs.byId.Keys && Distinct(visited)
    ensures forall v :: v in Explore(fs, forward, frontier, visited) ==>
      v in visited || exists f :: f in frontier && Reachable(fs, forward, f, v)
    decreases |fs.byId.Keys - Elems(visited)|, |frontier|
  {
    if frontier != [] {
      var x := frontier[0];
      var r := Explore(fs, forward, frontier, visited);
      if x !in fs.byId || x in visited {
        assert r == Explore(fs, forward, frontier[1..], visited);
        ExploreSound(fs, forward, frontier[1..], visited);
        forall v | v in r && v !in visited
          ensures exists f :: f in frontier && Reachable(fs, forward, f, v)
        {
          var f :| f in frontier[1..] && Reachable(fs, forward, f, v);
          assert f in frontier;
        }
      } else {
        var visited', frontier' := visited + [x], Succ(fs, forward, x) + frontier[1..];
        VisitShrinks(fs.byId.Keys, visited, x);
        assert r == Explore(fs, forward, frontier', visited');
        ExploreSound(fs, forward, frontier', visited');
        forall v | v in r && v !in visited
          ensures exists f :: f in frontier && Reachable(fs, forward, f, v)
        {
          assert v in visited' || exists f :: f in frontier' && Reachable(fs, forward, f, v);
          SoundVisit(fs, forward, frontier, v);
        }
      }
    }
  }

  /** What a path reaches from the successors of the first frontier node, the frontier reaches too. */
  lemma SoundVisit(fs: FlowSet, forward: bool, frontier: seq<Id>, v: Id)
    requires frontier != [] && frontier[0] in fs.byId
    requires v == frontier[0] ||
      exists f :: f in Succ(fs, forward, frontier[0]) + frontier[1..] && Reachable(fs, forward, f, v)
    ensures exists f :: f in frontier && Reachable(fs, forward, f, v)
  {
    var x := frontier[0];
    if v == x {
      ReachableRefl(fs, forward, x);
    } else {
      var f :| f in Succ(fs, forward, x) + frontier[1..] && Reachable(fs, forward, f, v);
      if f in Succ(fs, forward, x) {
        ReachablePrepend(fs, forward, x, f, v);
      } else {
        assert f in frontier;
      }
    }
  }

  /** A set closed under edges that holds the start of a path holds its end. */
  lemma {:induction false} ClosedHoldsPath(fs: FlowSet, forward: bool, s: seq<Id>, p: seq<Id>)
    requires Closed(fs, forward, s, [])
    requires IsPath(fs, forward, p) && p[0] in s
    ensures p[|p| - 1] in s
    decreases |p|
  {
    if |p| > 1 {
      var init := p[..|p| - 1];
      assert IsPath(fs, forward, init);
      ClosedHoldsPath(fs, forward, s, init);
    }
  }

  /** Whatever is reachable from a member of a set closed under edges lies in that set. */
  lemma ClosedHoldsReachable(fs: FlowSet, forward: bool, s: seq<Id>, a: Id, b: Id)
    requires Closed(fs, forward, s, []) && a in s && Reachable(fs, forward, a, b)
    ensures b in s
  {
    var p :| PathFromTo(fs, forward, p, a, b);
    ClosedHoldsPath(fs, forward, s, p);
  }

  /** reachableFrom: the ids reachable from s, in the order the search visits them. */
  function ReachOrder(fs: FlowSet, forward: bool, s: Id): (r: seq<Id>)
    ensures Distinct(r) && Elems(r) <= fs.byId.Keys
    ensures s in fs.byId ==> |r| > 0 && r[0] == s
    ensures s !in fs.byId ==> r == []
  {
    if s in fs.byId then
      ExploreStart(fs, forward, s);
      Explore(fs, forward, [s], [])
    else []
  }

  /** A search started at a known node visits that node first. */
  lemma ExploreStart(fs: FlowSet, forward: bool, s: Id)
    requires s in fs.byId
    ensures |Explore(fs, forward, [s], [])| > 0 && Explore(fs, forward, [s], [])[0] == s
  {
    VisitShrinks(fs.byId.Keys, [], s);
    assert [] + [s] == [s];
    var r := Explore(fs, forward, Succ(fs, forward, s) + [s][1..], [s]);
    assert r[..1] == [s];
  }

  function ReachSet(fs: FlowSet, forward: bool, s: Id): set<Id>
  {
    Elems(ReachOrder(fs, forward, s))
  }

  /** The search finds exactly the nodes a path leads to. */
  lemma ReachSetSpec(fs: FlowSet, forward: bool, s: Id, t: Id)
    ensures t in ReachSet(fs, forward, s) <==> Reachable(fs, forward, s, t)
  {
    var r := ReachOrder(fs, forward, s);
    ExploreSound(fs, forward, [s], []);
    if Reachable(fs, forward, s, t) {
      var p :| PathFromTo(fs, forward, p, s, t);
      ExploreClosed(fs, forward, [s], []);
      ClosedHoldsPath(fs, forward, r, p);
    }
  }

  lemma ReachSetAll(fs: FlowSet, forward: bool, s: Id)
    ensures forall t :: t in ReachSet(fs, forward, s) <==> Reachable(fs, forward, s, t)
  {
    forall t ensures t in ReachSet(fs, forward, s) <==> Reachable(fs, forward, s, t) {
      ReachSetSpec(fs, forward, s, t);
    }
  }

  /** An in-edge is an out-edge read backwards. */
  lemma StepReverse(fs: FlowSet, forward: bool, a: Id, b: Id)
    requires Valid(fs)
    requires a in fs.byId && b in fs.byId
    ensures b in Succ(fs, forward, a) <==> a in Succ(fs, !forward, b)
  {
  }

  function Reverse(p: seq<Id>): (r: seq<Id>)
    ensures |r| == |p| && forall i :: 0 <= i < |p| ==> r[i] == p[|p| - 1 - i]
  {
    seq(|p|, i requires 0 <= i < |p| => p[|p| - 1 - i])
  }

  lemma PathReverse(fs: FlowSet, forward: bool, p: seq<Id>)
    requires Valid(fs) && IsPath(fs, forward, p)
    ensures IsPath(fs, !forward, Reverse(p))
  {
    var r := Reverse(p);
    forall i | 0 < i < |r| ensures r[i] in Succ(fs, !forward, r[i - 1]) {
      ReverseStep(fs, forward, p, i);
    }
  }

  lemma ReverseStep(fs: FlowSet, forward: bool, p: seq<Id>, i: int)
    requires Valid(fs) && IsPath(fs, forward, p) && 0 < i < |p|
    ensures Reverse(p)[i] in Succ(fs, !forward, Reverse(p)[i - 1])
  {
    var k := |p| - 1 - i;
    assert p[k] in fs.byId && p[k + 1] in fs.byId && p[k + 1] in Succ(fs, forward, p[k]);
    StepReverse(fs, forward, p[k], p[k + 1]);
  }

  /** Reverse reachability: searching backwards from b finds a exactly when a reaches b forwards. */
  lemma ReachableReverse(fs: FlowSet, a: Id, b: Id)
    requires Valid(fs)
    ensures Reachable(fs, false, b, a) <==> Reachable(fs, true, a, b)
  {
    if Reachable(fs, false, b, a) {
      var p :| PathFromTo(fs, false, p, b, a);
      PathReverse(fs, false, p);
      assert PathFromTo(fs, true, Reverse(p), a, b);
    }
    if Reachable(fs, true, a, b) {
      var p :| PathFromTo(fs, true, p, a, b);
      PathReverse(fs, true, p);
      assert PathFromTo(fs, false, Reverse(p), b, a);
    }
  }

  /** n lies on a directed cycle: a path of at least one edge leads from n back to n. */
  ghost predicate OnCycle(fs: FlowSet, n: Id)
  {
    exists p :: PathFromTo(fs, true, p, n, n) && |p| >= 2
  }

  lemma OnCycleKnown(fs: FlowSet, n: Id)
    requires OnCycle(fs, n)
    ensures n in fs.byId
  {
    var p :| PathFromTo(fs, true, p, n, n) && |p| >= 2;
  }

  /** Cycle test as the loop rule computes it: some out-neighbour of n reaches n again. */
  function CycleThrough(fs: FlowSet, n: Id): bool
  {
    n in fs.byId && SomeReturns(fs, OutEdges(fs, n), n)
  }

  /** Some member of ms reaches n. */
  function SomeReturns(fs: FlowSet, ms: seq<Id>, n: Id): bool
  {
    ms != [] && (n in ReachSet(fs, true, ms[0]) || SomeReturns(fs, ms[1..], n))
  }

  lemma {:induction false} SomeReturnsSpec(fs: FlowSet, ms: seq<Id>, n: Id)
    ensures SomeReturns(fs, ms, n) <==> exists m :: m in ms && n in ReachSet(fs, true, m)
  {
    if ms != [] {
      SomeReturnsSpec(fs, ms[1..], n);
      assert forall m :: m in ms <==> m == ms[0] || m in ms[1..];
    }
  }

  lemma CycleThroughSpec(fs: FlowSet, n: Id)
    ensures CycleThrough(fs, n) <==> OnCycle(fs, n)
  {
    SomeReturnsSpec(fs, OutEdges(fs, n), n);
    if CycleThrough(fs, n) {
      var m :| m in OutEdges(fs, n) && n in ReachSet(fs, true, m);
      ReachSetSpec(fs, true, m, n);
      CycleFromStep(fs, n, m);
    }
    if OnCycle(fs, n) {
      var p :| PathFromTo(fs, true, p, n, n) && |p| >= 2;
      StepFromCycle(fs, n, p);
      ReachSetSpec(fs, true, p[1], n);
    }
  }

  /** An edge n -> m followed by a path back from m closes a cycle through n. */
  lemma CycleFromStep(fs: FlowSet, n: Id, m: Id)
    requires n in fs.byId && m in OutEdges(fs, n) && Reachable(fs, true, m, n)
    ensures OnCycle(fs, n)
  {
    var q :| PathFromTo(fs, true, q, m, n);
    var p := [n] + q;
    assert forall i :: 0 < i < |p| ==> p[i] == q[i - 1];
    assert PathFromTo(fs, true, p, n, n);
  }

  /** A cycle through n leaves n by an edge to p[1], from which n is reachable. */
  lemma StepFromCycle(fs: FlowSet, n: Id, p: seq<Id>)
    requires PathFromTo(fs, true, p, n, n) && |p| >= 2
    ensures n in fs.byId && p[1] in OutEdges(fs, n) && Reachable(fs, true, p[1], n)
  {
    var q := p[1..];
    assert forall i :: 0 <= i < |q| ==> q[i] == p[i + 1];
    assert PathFromTo(fs, true, q, p[1], n);
  }

  /** a and b reach each other: they are in one strongly connected component. */
  ghost predicate Mutual(fs: FlowSet, a: Id, b: Id)
  {
    Reachable(fs, true, a, b) && Reachable(fs, true, b, a)
  }

  /** x occurs in s at an earlier position than y. */
  ghost predicate Precedes(s: seq<Id>, x: Id, y: Id)
  {
    exists a, b :: 0 <= a < b < |s| && s[a] == x && s[b] == y
  }

  /** Any two entries of r occur in s in the same relative order (r is a subsequence of s when both are distinct). */
  ghost predicate InOrderOf(r: seq<Id>, s: seq<Id>)
  {
    forall i, j :: 0 <= i < j < |r| ==> Precedes(s, r[i], r[j])
  }

  /** Prepending x to s keeps the order of r, whether or not x is also prepended to r. */
  lemma InOrderCons(r: seq<Id>, s: seq<Id>, x: Id, keep: bool)
    requires InOrderOf(r, s) && forall m :: m in r ==> m in s
    ensures InOrderOf(if keep then [x] + r else r, [x] + s)
  {
    var r', s' := if keep then [x] + r else r, [x] + s;
    forall i, j | 0 <= i < j < |r'| ensures Precedes(s', r'[i], r'[j]) {
      var d := if keep then 1 else 0;
      if keep && i == 0 {
        assert r'[j] == r[j - 1] && r[j - 1] in r;
        var b :| 0 <= b < |s| && s[b] == r[j - 1];
        assert s'[0] == r'[i] && s'[b + 1] == r'[j];
      } else {
        assert r'[i] == r[i - d] && r'[j] == r[j - d];
        assert Precedes(s, r[i - d], r[j - d]);
        var a, b :| 0 <= a < b < |s| && s[a] == r[i - d] && s[b] == r[j - d];
        assert s'[a + 1] == r'[i] && s'[b + 1] == r'[j];
      }
    }
  }

  /** The members of `order` from which n is reachable again, in the order of `order`. */
  function Returning(fs: FlowSet, order: seq<Id>, n: Id): seq<Id>
  {
    if order == [] then []
    else
      var rest := Returning(fs, order[1..], n);
      if n in ReachSet(fs, true, order[0]) then [order[0]] + rest else rest
  }

  lemma {:induction false} ReturningSpec(fs: FlowSet, order: seq<Id>, n: Id)
    ensures forall m :: m in Returning(fs, order, n) <==> m in order && n in ReachSet(fs, true, m)
    ensures Distinct(order) ==> Distinct(Returning(fs, order, n))
    ensures order != [] && n in ReachSet(fs, true, order[0]) ==> Returning(fs, order, n)[0] == order[0]
    ensures InOrderOf(Returning(fs, order, n), order)
  {
    if order != [] {
      var tail := order[1..];
      ReturningSpec(fs, tail, n);
      assert forall m :: m in order <==> m == order[0] || m in tail;
      assert Distinct(order) ==> Distinct(tail) && order[0] !in tail;
      assert order == [order[0]] + tail;
      InOrderCons(Returning(fs, tail, n), tail, order[0], n in ReachSet(fs, true, order[0]));
    }
  }

  /** The strongly connected component of n, in the order the search from n discovers it. */
  function Scc(fs: FlowSet, n: Id): seq<Id>
  {
    Returning(fs, ReachOrder(fs, true, n), n)
  }

  lemma SccSpec(fs: FlowSet, n: Id)
    ensures forall m :: m in Scc(fs, n) <==> Mutual(fs, n, m)
    ensures Distinct(Scc(fs, n))
    ensures n in fs.byId ==> |Scc(fs, n)| > 0 && Scc(fs, n)[0] == n
    ensures InOrderOf(Scc(fs, n), ReachOrder(fs, true, n))
  {
    ReturningSpec(fs, ReachOrder(fs, true, n), n);
    ReachSetAll(fs, true, n);
    forall m ensures m in Scc(fs, n) <==> Mutual(fs, n, m) {
      ReachSetSpec(fs, true, m, n);
    }
    if n in fs.byId {
      ReachableRefl(fs, true, n);
      ReachSetSpec(fs, true, n, n);
    }
  }

  /** Every member of the component of a node on a cycle is itself on a cycle. */
  lemma MutualOnCycle(fs: FlowSet, n: Id, m: Id)
    requires OnCycle(fs, n) && Mutual(fs, n, m)
    ensures OnCycle(fs, m)
  {
    if m != n {
      var p :| PathFromTo(fs, true, p, m, n);
      var q :| PathFromTo(fs, true, q, n, m);
      var r := p + q[1..];
      forall i | 0 < i < |r| ensures r[i] in Succ(fs, true, r[i - 1]) {
        if i >= |p| {
          assert r[i] == q[i - |p| + 1];
          assert r[i - 1] == q[i - |p|];
        }
      }
      assert PathFromTo(fs, true, r, m, m);
    }
  }
}
