/**
 * The built-in "core" rules (flowsize, no-func-name, http-in-resp, loop) and
 * rule.check, which runs the configured subrules in order over one FlowSet.
 */
module CoreRules {
  import opened FlowManip
  import opened Traversal

  /** One finding: owning rule group, implicated ids, rule name, severity, message. */
  datatype Diagnostic = Diagnostic(rule: string, ids: seq<Id>, name: string, severity: string, message: string)

  function CoreWarning(name: string, ids: seq<Id>, message: string): Diagnostic
  {
    Diagnostic("core", ids, name, "warn", message)
  }

  function TooLargeFlow(tab: Id): Diagnostic
  {
    CoreWarning("flowsize", [tab], "too large flow size")
  }

  function UnnamedFunction(id: Id): Diagnostic
  {
    CoreWarning("no-func-name", [id], "function node has no name")
  }

  function DanglingHttpIn(id: Id): Diagnostic
  {
    CoreWarning("dangling-http-in", [id], "dangling http-in node")
  }

  function DanglingHttpResp(id: Id): Diagnostic
  {
    CoreWarning("dangling-http-resp", [id], "dangling http-response node")
  }

  function PossibleLoop(ids: seq<Id>): Diagnostic
  {
    CoreWarning("loop", ids, "possible infinite loop detected")
  }

  // ---------------------------------------------------------------- flowsize

  /** t is a tab some node belongs to (nodes with an empty z belong to no tab). */
  predicate IsTab(fs: FlowSet, t: Id)
  {
    t != "" && exists n :: n in fs.nodes && n.z == t
  }

  /** The tab ids of `nodes`, each once, in the order they are first seen. */
  function TabIds(nodes: seq<Node>): (r: seq<Id>)
    ensures Distinct(r)
    ensures forall t :: t in r <==> t != "" && exists n :: n in nodes && n.z == t
  {
    if nodes == [] then []
    else
      var init := nodes[..|nodes| - 1];
      var last := nodes[|nodes| - 1];
      assert forall n :: n in nodes <==> n in init || n == last;
      var tabs := TabIds(init);
      if last.z == "" || last.z in tabs then tabs else tabs + [last.z]
  }

  /** nodesByTab: the members of tab `tab`, in input order. */
  function NodesByTab(nodes: seq<Node>, tab: Id): (r: seq<Node>)
    ensures forall n :: n in r <==> n in nodes && n.z == tab
    ensures |r| <= |nodes|
  {
    if nodes == [] then []
    else
      assert forall n :: n in nodes <==> n == nodes[0] || n in nodes[1..];
      var rest := NodesByTab(nodes[1..], tab);
      if nodes[0].z == tab then [nodes[0]] + rest else rest
  }

  /** Grouping distributes over concatenation: the members of a tab are counted record by record. */
  lemma {:induction false} NodesByTabAppend(a: seq<Node>, b: seq<Node>, tab: Id)
    ensures NodesByTab(a + b, tab) == NodesByTab(a, tab) + NodesByTab(b, tab)
  {
    if a == [] {
      assert a + b == b;
    } else {
      assert (a + b)[0] == a[0] && (a + b)[1..] == a[1..] + b;
      NodesByTabAppend(a[1..], b, tab);
    }
  }

  function TooLargeTabs(fs: FlowSet, maxSize: int, tabs: seq<Id>): (r: seq<Diagnostic>)
    ensures forall d :: d in r <==>
      exists t :: t in tabs && |NodesByTab(fs.nodes, t)| > maxSize && d == TooLargeFlow(t)
    ensures Distinct(tabs) ==> Distinct(r)
  {
    if tabs == [] then []
    else
      assert forall t :: t in tabs <==> t == tabs[0] || t in tabs[1..];
      assert Distinct(tabs) ==> Distinct(tabs[1..]) && tabs[0] !in tabs[1..];
      var rest := TooLargeTabs(fs, maxSize, tabs[1..]);
      assert Distinct(tabs) ==> TooLargeFlow(tabs[0]) !in rest;
      if |NodesByTab(fs.nodes, tabs[0])| > maxSize then [TooLargeFlow(tabs[0])] + rest else rest
  }

  /** flowsize: one warning per tab holding more than maxSize nodes, naming the tab. */
  function FlowsizeRule(fs: FlowSet, maxSize: int): (r: seq<Diagnostic>)
    ensures forall d :: d in r <==>
      exists t :: IsTab(fs, t) && |NodesByTab(fs.nodes, t)| > maxSize && d == TooLargeFlow(t)
    ensures Distinct(r)
  {
    TooLargeTabs(fs, maxSize, TabIds(fs.nodes))
  }

  // ------------------------------------------------------------ no-func-name

  function UnnamedFunctions(nodes: seq<Node>): (r: seq<Diagnostic>)
    ensures forall d :: d in r <==>
      exists n :: n in nodes && n.typ == Function && n.name == "" && d == UnnamedFunction(n.id)
    ensures |r| <= |nodes|
  {
    if nodes == [] then []
    else
      assert forall n :: n in nodes <==> n == nodes[0] || n in nodes[1..];
      var rest := UnnamedFunctions(nodes[1..]);
      if nodes[0].typ == Function && nodes[0].name == "" then [UnnamedFunction(nodes[0].id)] + rest else rest
  }

  /** no-func-name: one warning per function node with an empty (or absent) name. */
  function NoFuncNameRule(fs: FlowSet): (r: seq<Diagnostic>)
    ensures forall d :: d in r <==>
      exists n :: n in fs.nodes && n.typ == Function && n.name == "" && d == UnnamedFunction(n.id)
  {
    UnnamedFunctions(fs.nodes)
  }

  // ------------------------------------------------------------ http-in-resp

  /** Forward search from id finds an http response node. */
  predicate ReachesResponse(fs: FlowSet, id: Id)
  {
    exists t :: t in ReachSet(fs, true, id) && t in fs.byId && fs.byId[t].typ == HttpResponse
  }

  /** Backward search from id finds an http in node. */
  predicate ReachedFromHttpIn(fs: FlowSet, id: Id)
  {
    exists t :: t in ReachSet(fs, false, id) && t in fs.byId && fs.byId[t].typ == HttpIn
  }

  ghost predicate ResponseReachable(fs: FlowSet, id: Id)
  {
    exists t :: t in fs.byId && fs.byId[t].typ == HttpResponse && Reachable(fs, true, id, t)
  }

  ghost predicate FedByHttpIn(fs: FlowSet, id: Id)
  {
    exists h :: h in fs.byId && fs.byId[h].typ == HttpIn && Reachable(fs, true, h, id)
  }

  lemma ReachesResponseSpec(fs: FlowSet, id: Id)
    ensures ReachesResponse(fs, id) <==> ResponseReachable(fs, id)
  {
    ReachSetAll(fs, true, id);
  }

  /** The backward search from a response answers "is it reachable from some http in". */
  lemma ReachedFromHttpInSpec(fs: FlowSet, id: Id)
    requires Valid(fs)
    ensures ReachedFromHttpIn(fs, id) <==> FedByHttpIn(fs, id)
  {
    ReachSetAll(fs, false, id);
    forall h ensures Reachable(fs, false, id, h) <==> Reachable(fs, true, h, id) {
      ReachableReverse(fs, h, id);
    }
  }

  function DanglingIns(fs: FlowSet, nodes: seq<Node>): (r: seq<Diagnostic>)
    ensures forall d :: d in r <==>
      exists n :: n in nodes && n.typ == HttpIn && !ReachesResponse(fs, n.id) && d == DanglingHttpIn(n.id)
  {
    if nodes == [] then []
    else
      assert forall n :: n in nodes <==> n == nodes[0] || n in nodes[1..];
      var rest := DanglingIns(fs, nodes[1..]);
      if nodes[0].typ == HttpIn && !ReachesResponse(fs, nodes[0].id) then [DanglingHttpIn(nodes[0].id)] + rest
      else rest
  }

  function DanglingResps(fs: FlowSet, nodes: seq<Node>): (r: seq<Diagnostic>)
    ensures forall d :: d in r <==>
      exists n :: n in nodes && n.typ == HttpResponse && !ReachedFromHttpIn(fs, n.id) && d == DanglingHttpResp(n.id)
  {
    if nodes == [] then []
    else
      assert forall n :: n in nodes <==> n == nodes[0] || n in nodes[1..];
      var rest := DanglingResps(fs, nodes[1..]);
      if nodes[0].typ == HttpResponse && !ReachedFromHttpIn(fs, nodes[0].id) then [DanglingHttpResp(nodes[0].id)] + rest
      else rest
  }

  /** http-in-resp: both ends are checked independently. */
  function HttpInRespRule(fs: FlowSet): seq<Diagnostic>
  {
    DanglingIns(fs, fs.nodes) + DanglingResps(fs, fs.nodes)
  }

  /**
   * An http in is flagged exactly when no http response is reachable from it,
   * an http response exactly when no http in reaches it, and nothing else is flagged.
   */
  lemma HttpInRespSpec(fs: FlowSet)
    requires Valid(fs)
    ensures forall d :: d in HttpInRespRule(fs) <==>
      || (exists n :: n in fs.nodes && n.typ == HttpIn && !ResponseReachable(fs, n.id) && d == DanglingHttpIn(n.id))
      || (exists n :: n in fs.nodes && n.typ == HttpResponse && !FedByHttpIn(fs, n.id) && d == DanglingHttpResp(n.id))
  {
    forall n | n in fs.nodes
      ensures ReachesResponse(fs, n.id) <==> ResponseReachable(fs, n.id)
      ensures ReachedFromHttpIn(fs, n.id) <==> FedByHttpIn(fs, n.id)
    {
      ReachesResponseSpec(fs, n.id);
      ReachedFromHttpInSpec(fs, n.id);
    }
  }

  /** An http in connected by any path (wires or link pairs) to an http response flags neither end. */
  lemma ConnectedHttpPairClean(fs: FlowSet, h: Id, t: Id)
    requires Valid(fs)
    requires h in fs.byId && fs.byId[h].typ == HttpIn
    requires t in fs.byId && fs.byId[t].typ == HttpResponse
    requires Reachable(fs, true, h, t)
    ensures DanglingHttpIn(h) !in HttpInRespRule(fs)
    ensures DanglingHttpResp(t) !in HttpInRespRule(fs)
  {
    HttpInRespSpec(fs);
    forall n | n in fs.nodes && n.id == h ensures ResponseReachable(fs, n.id) { }
    forall n | n in fs.nodes && n.id == t ensures FedByHttpIn(fs, n.id) { }
  }

  // -------------------------------------------------------------------- loop

  /** One of the nodes before index `bound` lies in the strongly connected component of node k. */
  function ComponentMetBefore(fs: FlowSet, k: nat, bound: nat): bool
    requires k < |fs.nodes| && bound <= k
  {
    && bound > 0
    && (|| ComponentMetBefore(fs, k, bound - 1)
        || (&& fs.nodes[bound - 1].id in ReachSet(fs, true, fs.nodes[k].id)
            && fs.nodes[k].id in ReachSet(fs, true, fs.nodes[bound - 1].id)))
  }

  /** An earlier node lies in the same strongly connected component as node k. */
  predicate CoveredBefore(fs: FlowSet, k: nat)
    requires k < |fs.nodes|
  {
    ComponentMetBefore(fs, k, k)
  }

  lemma {:induction false} ComponentMetBeforeSpec(fs: FlowSet, k: nat, bound: nat)
    requires k < |fs.nodes| && bound <= k
    ensures ComponentMetBefore(fs, k, bound) <==>
      exists j :: 0 <= j < bound && Mutual(fs, fs.nodes[j].id, fs.nodes[k].id)
  {
    if bound > 0 {
      ComponentMetBeforeSpec(fs, k, bound - 1);
      MutualSpec(fs, fs.nodes[bound - 1].id, fs.nodes[k].id);
    }
  }

  /** Node k is on a cycle and is the first node of its component: its component is reported here. */
  predicate IsLoopRoot(fs: FlowSet, k: nat)
    requires k < |fs.nodes|
  {
    CycleThrough(fs, fs.nodes[k].id) && !CoveredBefore(fs, k)
  }

  /** The loop findings for the first k nodes: one per component rooted among them. */
  function Loops(fs: FlowSet, k: nat): seq<Diagnostic>
    requires k <= |fs.nodes|
  {
    if k == 0 then []
    else
      var init := Loops(fs, k - 1);
      if IsLoopRoot(fs, k - 1) then init + [PossibleLoop(Scc(fs, fs.nodes[k - 1].id))] else init
  }

  /** Every finding among the first k nodes reports the component of a root among them. */
  lemma {:induction false} LoopsRoots(fs: FlowSet, k: nat)
    requires k <= |fs.nodes|
    ensures forall d :: d in Loops(fs, k) ==>
      exists j :: 0 <= j < k && IsLoopRoot(fs, j) && d == PossibleLoop(Scc(fs, fs.nodes[j].id))
  {
    if k > 0 {
      LoopsRoots(fs, k - 1);
    }
  }

  /** loop: report every strongly connected component that holds a cycle, once. */
  function LoopRule(fs: FlowSet): seq<Diagnostic>
  {
    Loops(fs, |fs.nodes|)
  }

  lemma MutualSpec(fs: FlowSet, a: Id, b: Id)
    ensures Mutual(fs, a, b) <==> a in ReachSet(fs, true, b) && b in ReachSet(fs, true, a)
  {
    ReachSetSpec(fs, true, a, b);
    ReachSetSpec(fs, true, b, a);
  }

  lemma MutualTrans(fs: FlowSet, a: Id, b: Id, c: Id)
    requires Mutual(fs, a, b) && Mutual(fs, b, c)
    ensures Mutual(fs, a, c)
  {
    ReachableTrans(fs, true, a, b, c);
    ReachableTrans(fs, true, c, b, a);
  }

  /**
   * Every loop finding names a node on a cycle first, and its ids are exactly
   * the nodes that reach and are reached from that node, each once.
   */
  lemma LoopSound(fs: FlowSet)
    ensures forall d :: d in LoopRule(fs) ==>
      && d == PossibleLoop(d.ids)
      && |d.ids| > 0
      && OnCycle(fs, d.ids[0])
      && Distinct(d.ids)
      && (forall m :: m in d.ids <==> Mutual(fs, d.ids[0], m))
      && InOrderOf(d.ids, ReachOrder(fs, true, d.ids[0]))
  {
    LoopsRoots(fs, |fs.nodes|);
    forall d | d in LoopRule(fs)
      ensures |d.ids| > 0 && OnCycle(fs, d.ids[0]) && Distinct(d.ids)
      ensures forall m :: m in d.ids <==> Mutual(fs, d.ids[0], m)
      ensures InOrderOf(d.ids, ReachOrder(fs, true, d.ids[0]))
    {
      var j :| 0 <= j < |fs.nodes| && IsLoopRoot(fs, j) && d == PossibleLoop(Scc(fs, fs.nodes[j].id));
      var n := fs.nodes[j].id;
      SccSpec(fs, n);
      CycleThroughSpec(fs, n);
    }
  }

  /** Some loop finding among the first k names id. */
  ghost predicate NamedByLoops(fs: FlowSet, k: nat, id: Id)
    requires k <= |fs.nodes|
  {
    exists d :: d in Loops(fs, k) && id in d.ids
  }

  /** If x shares its component with a node already named by a loop finding, x is named by it too. */
  lemma MutualNamed(fs: FlowSet, k: nat, x: Id, y: Id)
    requires k <= |fs.nodes|
    requires Mutual(fs, x, y) && NamedByLoops(fs, k, y)
    ensures NamedByLoops(fs, k, x)
  {
    var d :| d in Loops(fs, k) && y in d.ids;
    LoopsRoots(fs, k);
    var i :| 0 <= i < k && IsLoopRoot(fs, i) && d == PossibleLoop(Scc(fs, fs.nodes[i].id));
    var root := fs.nodes[i].id;
    SccSpec(fs, root);
    MutualTrans(fs, root, y, x);
    assert x in d.ids;
  }

  lemma NamedGrows(fs: FlowSet, k: nat, x: Id)
    requires k < |fs.nodes| && NamedByLoops(fs, k, x)
    ensures NamedByLoops(fs, k + 1, x)
  {
    var d :| d in Loops(fs, k) && x in d.ids;
    assert d in Loops(fs, k + 1);
  }

  /** A root names itself. */
  lemma RootNamed(fs: FlowSet, k: nat)
    requires k < |fs.nodes| && IsLoopRoot(fs, k)
    ensures NamedByLoops(fs, k + 1, fs.nodes[k].id)
  {
    var x := fs.nodes[k].id;
    SccSpec(fs, x);
    assert PossibleLoop(Scc(fs, x)) in Loops(fs, k + 1);
  }

  /** A cyclic node that is not a root shares its component with an earlier node, also cyclic. */
  lemma CoveringNode(fs: FlowSet, i: nat) returns (j: nat)
    requires i < |fs.nodes| && CycleThrough(fs, fs.nodes[i].id) && CoveredBefore(fs, i)
    ensures j < i && CycleThrough(fs, fs.nodes[j].id) && Mutual(fs, fs.nodes[i].id, fs.nodes[j].id)
  {
    var x := fs.nodes[i].id;
    ComponentMetBeforeSpec(fs, i, i);
    j :| 0 <= j < i && Mutual(fs, fs.nodes[j].id, x);
    var y := fs.nodes[j].id;
    CycleThroughSpec(fs, x);
    MutualOnCycle(fs, x, y);
    CycleThroughSpec(fs, y);
  }

  /** A node on a cycle among the first k nodes is named by a loop finding among the first k. */
  lemma {:induction false} LoopsCover(fs: FlowSet, k: nat, i: nat)
    requires i < k <= |fs.nodes|
    requires CycleThrough(fs, fs.nodes[i].id)
    ensures NamedByLoops(fs, k, fs.nodes[i].id)
    decreases k
  {
    var x := fs.nodes[i].id;
    if i < k - 1 {
      LoopsCover(fs, k - 1, i);
      NamedGrows(fs, k - 1, x);
    } else if IsLoopRoot(fs, i) {
      RootNamed(fs, i);
    } else {
      var j := CoveringNode(fs, i);
      LoopsCover(fs, k - 1, j);
      MutualNamed(fs, k - 1, x, fs.nodes[j].id);
      NamedGrows(fs, k - 1, x);
    }
  }

  /** Every node on a cycle is named by some loop finding. */
  lemma LoopComplete(fs: FlowSet)
    requires Valid(fs)
    ensures forall n :: OnCycle(fs, n) ==> exists d :: d in LoopRule(fs) && n in d.ids
  {
    forall n | OnCycle(fs, n) ensures exists d :: d in LoopRule(fs) && n in d.ids {
      OnCycleKnown(fs, n);
      var i :| 0 <= i < |fs.nodes| && fs.nodes[i] == fs.byId[n];
      CycleThroughSpec(fs, n);
      LoopsCover(fs, |fs.nodes|, i);
    }
  }

  /** Two roots never share a component member. */
  lemma RootsDisjoint(fs: FlowSet, j1: nat, j2: nat, m: Id)
    requires j1 < j2 < |fs.nodes| && IsLoopRoot(fs, j2)
    requires m in Scc(fs, fs.nodes[j1].id)
    ensures m !in Scc(fs, fs.nodes[j2].id)
  {
    var y, x := fs.nodes[j1].id, fs.nodes[j2].id;
    SccSpec(fs, y);
    SccSpec(fs, x);
    if m in Scc(fs, x) {
      MutualTrans(fs, y, m, x);
      ComponentMetBeforeSpec(fs, j2, j2);
      assert false;
    }
  }

  /** The finding of a new root is not among the findings before it. */
  lemma RootFresh(fs: FlowSet, k: nat)
    requires k < |fs.nodes| && IsLoopRoot(fs, k)
    ensures PossibleLoop(Scc(fs, fs.nodes[k].id)) !in Loops(fs, k)
  {
    var x := fs.nodes[k].id;
    var d := PossibleLoop(Scc(fs, x));
    if d in Loops(fs, k) {
      var j := RootOf(fs, k, d);
      SccSpec(fs, x);
      RootsDisjoint(fs, j, k, x);
      assert false;
    }
  }

  /** The root whose component a finding among the first k nodes reports. */
  lemma RootOf(fs: FlowSet, k: nat, d: Diagnostic) returns (j: nat)
    requires k <= |fs.nodes| && d in Loops(fs, k)
    ensures j < k && IsLoopRoot(fs, j) && d == PossibleLoop(Scc(fs, fs.nodes[j].id))
  {
    LoopsRoots(fs, k);
    j :| 0 <= j < k && IsLoopRoot(fs, j) && d == PossibleLoop(Scc(fs, fs.nodes[j].id));
  }

  /** No loop finding is reported twice. */
  lemma {:induction false} LoopsDistinct(fs: FlowSet, k: nat)
    requires k <= |fs.nodes|
    ensures Distinct(Loops(fs, k))
  {
    if k > 0 {
      LoopsDistinct(fs, k - 1);
      if IsLoopRoot(fs, k - 1) {
        RootFresh(fs, k - 1);
        DistinctAppend(Loops(fs, k - 1), PossibleLoop(Scc(fs, fs.nodes[k - 1].id)));
      }
    }
  }

  /** Two different findings share no id. */
  lemma FindingsDisjoint(fs: FlowSet, d1: Diagnostic, d2: Diagnostic, m: Id)
    requires d1 in LoopRule(fs) && d2 in LoopRule(fs) && d1 != d2
    requires m in d1.ids
    ensures m !in d2.ids
  {
    var j1 := RootOf(fs, |fs.nodes|, d1);
    var j2 := RootOf(fs, |fs.nodes|, d2);
    if j1 < j2 {
      RootsDisjoint(fs, j1, j2, m);
    } else if j2 < j1 && m in d2.ids {
      RootsDisjoint(fs, j2, j1, m);
      assert false;
    }
  }

  /** A strongly connected component is reported once: no two loop findings share an id. */
  lemma LoopDisjoint(fs: FlowSet)
    ensures forall a, b, m :: 0 <= a < b < |LoopRule(fs)| && m in LoopRule(fs)[a].ids ==> m !in LoopRule(fs)[b].ids
  {
    var r := LoopRule(fs);
    LoopsDistinct(fs, |fs.nodes|);
    forall a, b, m | 0 <= a < b < |r| && m in r[a].ids ensures m !in r[b].ids {
      FindingsDisjoint(fs, r[a], r[b], m);
    }
  }

  /** A flow without cycles gets no loop finding. */
  lemma LoopAcyclic(fs: FlowSet)
    requires forall n :: n in fs.byId ==> !OnCycle(fs, n)
    ensures LoopRule(fs) == []
  {
    LoopSound(fs);
    if LoopRule(fs) != [] {
      var d := LoopRule(fs)[0];
      OnCycleKnown(fs, d.ids[0]);
      assert false;
    }
  }

  // -------------------------------------------------------------- rule.check

  /** One configured subrule with its parameters. */
  datatype Subrule = Flowsize(maxSize: int) | NoFuncName | HttpInResp | Loop

  datatype CheckResult = CheckResult(result: seq<Diagnostic>)

  function RunSubrule(fs: FlowSet, s: Subrule): seq<Diagnostic>
  {
    match s
    case Flowsize(maxSize) => FlowsizeRule(fs, maxSize)
    case NoFuncName => NoFuncNameRule(fs)
    case HttpInResp => HttpInRespRule(fs)
    case Loop => LoopRule(fs)
  }

  function Findings(fs: FlowSet, subrules: seq<Subrule>): seq<Diagnostic>
  {
    if subrules == [] then [] else RunSubrule(fs, subrules[0]) + Findings(fs, subrules[1..])
  }

  /** rule.check: run the subrules in configured order and concatenate their findings. */
  function Check(fs: FlowSet, subrules: seq<Subrule>): CheckResult
  {
    CheckResult(Findings(fs, subrules))
  }

  /** A finding of rule.check is exactly a finding of one of the configured subrules. */
  lemma {:induction false} CheckSpec(fs: FlowSet, subrules: seq<Subrule>)
    ensures forall d :: d in Check(fs, subrules).result <==>
      exists i :: 0 <= i < |subrules| && d in RunSubrule(fs, subrules[i])
  {
    if subrules != [] {
      var tail := subrules[1..];
      CheckSpec(fs, tail);
      assert Check(fs, subrules).result == RunSubrule(fs, subrules[0]) + Check(fs, tail).result;
      forall d | exists i :: 0 <= i < |subrules| && d in RunSubrule(fs, subrules[i])
        ensures d in Check(fs, subrules).result
      {
        var i :| 0 <= i < |subrules| && d in RunSubrule(fs, subrules[i]);
        if i > 0 {
          assert subrules[i] == tail[i - 1];
        }
      }
      forall d | d in Check(fs, tail).result
        ensures exists i :: 0 <= i < |subrules| && d in RunSubrule(fs, subrules[i])
      {
        var i :| 0 <= i < |tail| && d in RunSubrule(fs, tail[i]);
        assert tail[i] == subrules[i + 1];
      }
    }
  }

  /** Every core finding is a warning of rule group "core". */
  lemma CheckWarnsOnly(fs: FlowSet, subrules: seq<Subrule>)
    ensures forall d :: d in Check(fs, subrules).result ==> d.rule == "core" && d.severity == "warn"
  {
    CheckSpec(fs, subrules);
    forall d | d in Check(fs, subrules).result ensures d.rule == "core" && d.severity == "warn" {
      var i :| 0 <= i < |subrules| && d in RunSubrule(fs, subrules[i]);
      match subrules[i]
      case Flowsize(maxSize) =>
        var t :| IsTab(fs, t) && |NodesByTab(fs.nodes, t)| > maxSize && d == TooLargeFlow(t);
      case NoFuncName =>
        var n :| n in fs.nodes && n.typ == Function && n.name == "" && d == UnnamedFunction(n.id);
      case HttpInResp =>
        if d in DanglingIns(fs, fs.nodes) {
          var n :| n in fs.nodes && n.typ == HttpIn && !ReachesResponse(fs, n.id) && d == DanglingHttpIn(n.id);
        } else {
          var n :| n in fs.nodes && n.typ == HttpResponse && !ReachedFromHttpIn(fs, n.id) && d == DanglingHttpResp(n.id);
        }
      case Loop =>
        LoopsRoots(fs, |fs.nodes|);
        var j :| 0 <= j < |fs.nodes| && IsLoopRoot(fs, j) && d == PossibleLoop(Scc(fs, fs.nodes[j].id));
    }
  }

  /** Results keep subrule order: checking a + b is checking a, then b. */
  lemma {:induction false} CheckConcat(fs: FlowSet, a: seq<Subrule>, b: seq<Subrule>)
    ensures Check(fs, a + b).result == Check(fs, a).result + Check(fs, b).result
  {
    if a == [] {
      assert a + b == b;
    } else {
      assert (a + b)[0] == a[0] && (a + b)[1..] == a[1..] + b;
      CheckConcat(fs, a[1..], b);
    }
  }

  /** The empty flow yields no finding, whatever subrules are configured. */
  lemma {:induction false} EmptyFlowClean(subrules: seq<Subrule>)
    ensures Check(ParseFlow([]), subrules).result == []
  {
    if subrules != [] {
      var fs := ParseFlow([]);
      assert fs.nodes == [];
      assert RunSubrule(fs, subrules[0]) == [];
      EmptyFlowClean(subrules[1..]);
    }
  }
}
