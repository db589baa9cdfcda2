/**
 * The documented behaviour of the core rules on small flows, one lemma per
 * case: parse the flow, run rule.check with a single subrule, and state the
 * findings exactly. Node ids (and tab ids) are parameters, so each lemma
 * covers every flow of the same shape.
 */
module Scenarios {
  import opened FlowManip
  import opened Traversal
  import opened CoreRules

  // ----------------------------------------------------------------- helpers

  /** A record with no name and the given type, tab, wires and (optional) links. */
  function Raw(id: Id, typ: string, z: Id, wires: seq<seq<Id>>, links: Option<seq<Id>>): RawNode
  {
    RawNode(id, typ, Some(z), None, Some(wires), links)
  }

  /** A sequence without members is empty. */
  lemma NoMemberEmpty<T>(s: seq<T>)
    ensures (forall x :: x !in s) ==> s == []
  {
    if s != [] {
      assert s[0] in s;
    }
  }

  lemma ParsedOne(a: RawNode)
    ensures ParseFlow([a]).nodes == [Normalize(a)]
  {
  }

  lemma ParsedTwo(a: RawNode, b: RawNode)
    ensures ParseFlow([a, b]).nodes == [Normalize(a), Normalize(b)]
  {
  }

  lemma ParsedThree(a: RawNode, b: RawNode, c: RawNode)
    ensures ParseFlow([a, b, c]).nodes == [Normalize(a), Normalize(b), Normalize(c)]
  {
  }

  lemma ParsedFour(a: RawNode, b: RawNode, c: RawNode, d: RawNode)
    ensures ParseFlow([a, b, c, d]).nodes == [Normalize(a), Normalize(b), Normalize(c), Normalize(d)]
  {
    assert [a, b, c, d] == [a, b] + [c, d];
    ParseFlowAppend([a, b], [c, d]);
    ParsedTwo(a, b);
    ParsedTwo(c, d);
  }

  /** Checking a single subrule yields exactly that subrule's findings. */
  lemma CheckOne(fs: FlowSet, s: Subrule)
    ensures Check(fs, [s]).result == RunSubrule(fs, s)
  {
    assert Findings(fs, [s]) == RunSubrule(fs, s) + Findings(fs, []);
  }

  lemma CheckFlowsize(fs: FlowSet, maxSize: int)
    ensures Check(fs, [Flowsize(maxSize)]).result == FlowsizeRule(fs, maxSize)
  {
    CheckOne(fs, Flowsize(maxSize));
  }

  lemma CheckNoFuncName(fs: FlowSet)
    ensures Check(fs, [NoFuncName]).result == NoFuncNameRule(fs)
  {
    CheckOne(fs, NoFuncName);
  }

  lemma CheckHttpInResp(fs: FlowSet)
    ensures Check(fs, [HttpInResp]).result == HttpInRespRule(fs)
  {
    CheckOne(fs, HttpInResp);
  }

  lemma CheckLoop(fs: FlowSet)
    ensures Check(fs, [Loop]).result == LoopRule(fs)
  {
    CheckOne(fs, Loop);
  }

  /** A node whose id no other node has is what the index holds for that id. */
  lemma Indexed(fs: FlowSet, n: Node)
    requires Valid(fs) && n in fs.nodes
    requires forall m :: m in fs.nodes && m.id == n.id ==> m == n
    ensures n.id in fs.byId && fs.byId[n.id] == n
  {
  }

  /** A chain of three edges is a path. */
  lemma ThreeSteps(fs: FlowSet, a: Id, b: Id, c: Id, d: Id)
    requires a in fs.byId && b in fs.byId && c in fs.byId && d in fs.byId
    requires b in OutEdges(fs, a) && c in OutEdges(fs, b) && d in OutEdges(fs, c)
    ensures Reachable(fs, true, a, d)
  {
    ReachableRefl(fs, true, d);
    ReachablePrepend(fs, true, c, d, d);
    ReachablePrepend(fs, true, b, c, d);
    ReachablePrepend(fs, true, a, b, d);
  }

  /** The wire targets of a node other than a link out are its out-edges. */
  lemma WiredEdges(fs: FlowSet, n: Node)
    requires n.id in fs.byId && fs.byId[n.id] == n && n.typ != LinkOut
    ensures OutEdges(fs, n.id) == Targets(n.wires)
  {
  }

  lemma OnePort(t: Id)
    ensures Targets([[t]]) == [t]
  {
    assert Targets([[t]][1..]) == [];
  }

  // ---------------------------------------------------------------- flowsize

  /** Two nodes on one tab exceed a size limit of 1: exactly that tab is reported. */
  lemma TwoNodeTabFindings(fs: FlowSet, a: Node, b: Node)
    requires fs.nodes == [a, b] && a.z != "" && a.z == b.z
    ensures FlowsizeRule(fs, 1) == [TooLargeFlow(a.z)]
  {
    assert [a, b][..1] == [a] && [a][..0] == [];
    assert TabIds([a]) == TabIds([]) + [a.z];
    assert TabIds([a, b]) == [a.z];
    assert [a, b][1..] == [b] && [b][1..] == [];
    assert |NodesByTab(fs.nodes, a.z)| == 2;
    assert [a.z][1..] == [];
    assert TooLargeTabs(fs, 1, [a.z]) == [TooLargeFlow(a.z)] + TooLargeTabs(fs, 1, []);
  }

  /** Two nodes on two different tabs: no tab holds more than one node. */
  lemma TwoTabsFindings(fs: FlowSet, a: Node, b: Node)
    requires fs.nodes == [a, b] && a.z != b.z
    ensures FlowsizeRule(fs, 1) == []
  {
    forall t ensures |NodesByTab(fs.nodes, t)| <= 1 {
      assert [a, b][1..] == [b];
      assert NodesByTab([b], t) == if b.z == t then [b] else [];
    }
    NoMemberEmpty(FlowsizeRule(fs, 1));
  }

  /** With maxSize 1, a tab holding two nodes is reported once, by its tab id. */
  lemma FlowsizeWarnsLargeFlow(n1: Id, n2: Id, tab: Id)
    requires tab != ""
    ensures Check(ParseFlow([Raw(n1, "comment", tab, [], None), Raw(n2, "comment", tab, [], None)]),
      [Flowsize(1)]).result == [TooLargeFlow(tab)]
  {
    var a, b := Raw(n1, "comment", tab, [], None), Raw(n2, "comment", tab, [], None);
    var fs := ParseFlow([a, b]);
    ParsedTwo(a, b);
    TwoNodeTabFindings(fs, fs.nodes[0], fs.nodes[1]);
    CheckFlowsize(fs, 1);
  }

  /** With maxSize 1, one node on each of two tabs is not reported. */
  lemma FlowsizeSplitTabsClean(n1: Id, n2: Id, tab1: Id, tab2: Id)
    requires tab1 != tab2
    ensures Check(ParseFlow([Raw(n1, "comment", tab1, [], None), Raw(n2, "comment", tab2, [], None)]),
      [Flowsize(1)]).result == []
  {
    var a, b := Raw(n1, "comment", tab1, [], None), Raw(n2, "comment", tab2, [], None);
    var fs := ParseFlow([a, b]);
    ParsedTwo(a, b);
    TwoTabsFindings(fs, fs.nodes[0], fs.nodes[1]);
    CheckFlowsize(fs, 1);
  }

  // ------------------------------------------------------------ no-func-name

  /** A function node with an empty name is reported, and nothing else is. */
  lemma NoFuncNameWarnsEmptyName(n1: Id)
    ensures Check(ParseFlow([RawNode(n1, Function, Some("0"), Some(""), Some([]), None)]), [NoFuncName]).result
      == [UnnamedFunction(n1)]
  {
    var a := RawNode(n1, Function, Some("0"), Some(""), Some([]), None);
    var fs := ParseFlow([a]);
    ParsedOne(a);
    assert fs.nodes[1..] == [];
    CheckNoFuncName(fs);
  }

  /** A function node with a non-empty name is not reported. */
  lemma NoFuncNameAcceptsName(n1: Id, name: string)
    requires name != ""
    ensures Check(ParseFlow([RawNode(n1, Function, Some("0"), Some(name), Some([]), None)]), [NoFuncName]).result == []
  {
    var a := RawNode(n1, Function, Some("0"), Some(name), Some([]), None);
    var fs := ParseFlow([a]);
    ParsedOne(a);
    NoMemberEmpty(NoFuncNameRule(fs));
    CheckNoFuncName(fs);
  }

  // ------------------------------------------------------------ http-in-resp

  /** In a flow of four nodes whose middle two are not http nodes, the ends are the only http nodes. */
  lemma HttpEnds(fs: FlowSet, a: Node, b: Node, c: Node, d: Node)
    requires fs.nodes == [a, b, c, d] && a.typ != HttpResponse && d.typ != HttpIn
    requires b.typ != HttpIn && b.typ != HttpResponse && c.typ != HttpIn && c.typ != HttpResponse
    ensures forall n :: n in fs.nodes && n.typ == HttpIn ==> n.id == a.id
    ensures forall n :: n in fs.nodes && n.typ == HttpResponse ==> n.id == d.id
  {
  }

  /** The findings on a flow whose only http nodes are the first and the last of four. */
  lemma FourNodeHttpFindings(fs: FlowSet, a: Node, b: Node, c: Node, d: Node)
    requires fs.nodes == [a, b, c, d] && a.typ == HttpIn && d.typ == HttpResponse
    requires b.typ != HttpIn && b.typ != HttpResponse && c.typ != HttpIn && c.typ != HttpResponse
    requires !ReachesResponse(fs, a.id) && !ReachedFromHttpIn(fs, d.id)
    ensures HttpInRespRule(fs) == [DanglingHttpIn(a.id), DanglingHttpResp(d.id)]
  {
    assert [a, b, c, d][1..] == [b, c, d] && [b, c, d][1..] == [c, d] && [c, d][1..] == [d] && [d][1..] == [];
    assert DanglingIns(fs, [a, b, c, d]) == [DanglingHttpIn(a.id)] + DanglingIns(fs, [b, c, d]);
    NoMemberEmpty(DanglingIns(fs, [b, c, d]));
    assert DanglingResps(fs, [a, b, c, d]) == DanglingResps(fs, [b, c, d]);
    assert DanglingResps(fs, [b, c, d]) == DanglingResps(fs, [c, d]);
    assert DanglingResps(fs, [c, d]) == DanglingResps(fs, [d]);
    assert DanglingResps(fs, [d]) == [DanglingHttpResp(d.id)] + DanglingResps(fs, []);
  }

  /** The findings on a flow of an http in followed by an http response. */
  lemma TwoNodeHttpFindings(fs: FlowSet, a: Node, b: Node)
    requires fs.nodes == [a, b] && a.typ == HttpIn && b.typ == HttpResponse
    requires !ReachesResponse(fs, a.id) && !ReachedFromHttpIn(fs, b.id)
    ensures HttpInRespRule(fs) == [DanglingHttpIn(a.id), DanglingHttpResp(b.id)]
  {
    assert [a, b][1..] == [b] && [b][1..] == [];
    assert DanglingIns(fs, [a, b]) == [DanglingHttpIn(a.id)] + DanglingIns(fs, [b]);
    assert DanglingIns(fs, [b]) == DanglingIns(fs, []);
    assert DanglingResps(fs, [a, b]) == DanglingResps(fs, [b]);
    assert DanglingResps(fs, [b]) == [DanglingHttpResp(b.id)] + DanglingResps(fs, []);
  }

  /** A lone http in node is dangling. */
  lemma LoneHttpInFindings(fs: FlowSet, n1: Id)
    requires Valid(fs) && fs.nodes == [Node(n1, HttpIn, "f1", "", [], [])]
    ensures HttpInRespRule(fs) == [DanglingHttpIn(n1)]
  {
    assert !ReachesResponse(fs, n1);
    assert fs.nodes[1..] == [];
    assert DanglingIns(fs, fs.nodes) == [DanglingHttpIn(n1)] + DanglingIns(fs, []);
    NoMemberEmpty(DanglingResps(fs, fs.nodes));
  }

  lemma HttpWarnsDanglingIn(n1: Id)
    ensures Check(ParseFlow([Raw(n1, HttpIn, "f1", [], None)]), [HttpInResp]).result == [DanglingHttpIn(n1)]
  {
    var a := Raw(n1, HttpIn, "f1", [], None);
    var fs := ParseFlow([a]);
    ParsedOne(a);
    LoneHttpInFindings(fs, n1);
    CheckHttpInResp(fs);
  }

  /** A lone http response node is dangling. */
  lemma LoneHttpRespFindings(fs: FlowSet, n1: Id)
    requires Valid(fs) && fs.nodes == [Node(n1, HttpResponse, "f1", "", [], [])]
    ensures HttpInRespRule(fs) == [DanglingHttpResp(n1)]
  {
    assert !ReachedFromHttpIn(fs, n1);
    assert fs.nodes[1..] == [];
    assert DanglingResps(fs, fs.nodes) == [DanglingHttpResp(n1)] + DanglingResps(fs, []);
    NoMemberEmpty(DanglingIns(fs, fs.nodes));
  }

  lemma HttpWarnsDanglingResp(n1: Id)
    ensures Check(ParseFlow([Raw(n1, HttpResponse, "f1", [], None)]), [HttpInResp]).result == [DanglingHttpResp(n1)]
  {
    var a := Raw(n1, HttpResponse, "f1", [], None);
    var fs := ParseFlow([a]);
    ParsedOne(a);
    LoneHttpRespFindings(fs, n1);
    CheckHttpInResp(fs);
  }

  /** When the only http in and the only http response are connected, nothing is flagged. */
  lemma PairCleanFindings(fs: FlowSet, h: Id, t: Id)
    requires Valid(fs)
    requires h in fs.byId && fs.byId[h].typ == HttpIn
    requires t in fs.byId && fs.byId[t].typ == HttpResponse
    requires forall n :: n in fs.nodes && n.typ == HttpIn ==> n.id == h
    requires forall n :: n in fs.nodes && n.typ == HttpResponse ==> n.id == t
    requires Reachable(fs, true, h, t)
    ensures HttpInRespRule(fs) == []
  {
    ConnectedHttpPairClean(fs, h, t);
    NoMemberEmpty(HttpInRespRule(fs));
  }

  lemma ConnectedPairFindings(fs: FlowSet, n1: Id, n2: Id)
    requires Valid(fs) && n1 != n2
    requires fs.nodes == [Node(n1, HttpIn, "f1", "", [[n2]], []), Node(n2, HttpResponse, "f1", "", [], [])]
    ensures HttpInRespRule(fs) == []
  {
    var a, b := fs.nodes[0], fs.nodes[1];
    Indexed(fs, a);
    Indexed(fs, b);
    WiredEdges(fs, a);
    OnePort(n2);
    assert PathFromTo(fs, true, [n1, n2], n1, n2);
    PairCleanFindings(fs, n1, n2);
  }

  lemma HttpConnectedClean(n1: Id, n2: Id)
    requires n1 != n2
    ensures Check(ParseFlow([Raw(n1, HttpIn, "f1", [[n2]], None), Raw(n2, HttpResponse, "f1", [], None)]),
      [HttpInResp]).result == []
  {
    var a, b := Raw(n1, HttpIn, "f1", [[n2]], None), Raw(n2, HttpResponse, "f1", [], None);
    var fs := ParseFlow([a, b]);
    ParsedTwo(a, b);
    ConnectedPairFindings(fs, n1, n2);
    CheckHttpInResp(fs);
  }

  /**
   * When the nodes reachable from the only http in (n1) form a set `s` with
   * no http response, both n1 and the only http response (n2) are flagged.
   */
  lemma SeparatedFindings(fs: FlowSet, s: seq<Id>, n1: Id, n2: Id)
    requires Valid(fs) && Closed(fs, true, s, []) && n1 in s && n2 !in s
    requires n1 in fs.byId && fs.byId[n1].typ == HttpIn
    requires n2 in fs.byId && fs.byId[n2].typ == HttpResponse
    requires forall n :: n in fs.nodes && n.typ == HttpIn ==> n.id == n1
    requires forall n :: n in fs.nodes && n.typ == HttpResponse ==> n.id == n2
    ensures !ReachesResponse(fs, n1) && !ReachedFromHttpIn(fs, n2)
  {
    forall t | Reachable(fs, true, n1, t) ensures t in s {
      ClosedHoldsReachable(fs, true, s, n1, t);
    }
    ReachesResponseSpec(fs, n1);
    ReachedFromHttpInSpec(fs, n2);
  }

  lemma UnconnectedPairFindings(fs: FlowSet, n1: Id, n2: Id)
    requires Valid(fs) && n1 != n2
    requires fs.nodes == [Node(n1, HttpIn, "f1", "", [], []), Node(n2, HttpResponse, "f1", "", [], [])]
    ensures HttpInRespRule(fs) == [DanglingHttpIn(n1), DanglingHttpResp(n2)]
  {
    var a, b := fs.nodes[0], fs.nodes[1];
    Indexed(fs, a);
    Indexed(fs, b);
    WiredEdges(fs, a);
    assert Closed(fs, true, [n1], []);
    SeparatedFindings(fs, [n1], n1, n2);
    TwoNodeHttpFindings(fs, a, b);
  }

  lemma HttpUnconnectedWarnsBoth(n1: Id, n2: Id)
    requires n1 != n2
    ensures Check(ParseFlow([Raw(n1, HttpIn, "f1", [], None), Raw(n2, HttpResponse, "f1", [], None)]),
      [HttpInResp]).result == [DanglingHttpIn(n1), DanglingHttpResp(n2)]
  {
    var a, b := Raw(n1, HttpIn, "f1", [], None), Raw(n2, HttpResponse, "f1", [], None);
    var fs := ParseFlow([a, b]);
    ParsedTwo(a, b);
    UnconnectedPairFindings(fs, n1, n2);
    CheckHttpInResp(fs);
  }

  lemma BadlyPositionedEdges(fs: FlowSet, n1: Id, n2: Id, n3: Id, n4: Id)
    requires Valid(fs) && n1 != n2 && n1 != n3 && n1 != n4 && n2 != n3 && n2 != n4 && n3 != n4
    requires fs.nodes == [
      Node(n1, HttpIn, "f1", "", [[n2]], []),
      Node(n2, Function, "f1", "", [], []),
      Node(n3, Function, "f1", "", [[n2, n4]], []),
      Node(n4, HttpResponse, "f1", "", [], [])]
    ensures n1 in fs.byId && fs.byId[n1].typ == HttpIn && n4 in fs.byId && fs.byId[n4].typ == HttpResponse
    ensures OutEdges(fs, n1) == [n2] && OutEdges(fs, n2) == []
  {
    var a, b, d := fs.nodes[0], fs.nodes[1], fs.nodes[3];
    Indexed(fs, a);
    Indexed(fs, b);
    Indexed(fs, d);
    WiredEdges(fs, a);
    WiredEdges(fs, b);
    OnePort(n2);
  }

  lemma BadlyPositionedFindings(fs: FlowSet, n1: Id, n2: Id, n3: Id, n4: Id)
    requires Valid(fs) && n1 != n2 && n1 != n3 && n1 != n4 && n2 != n3 && n2 != n4 && n3 != n4
    requires fs.nodes == [
      Node(n1, HttpIn, "f1", "", [[n2]], []),
      Node(n2, Function, "f1", "", [], []),
      Node(n3, Function, "f1", "", [[n2, n4]], []),
      Node(n4, HttpResponse, "f1", "", [], [])]
    ensures HttpInRespRule(fs) == [DanglingHttpIn(n1), DanglingHttpResp(n4)]
  {
    BadlyPositionedEdges(fs, n1, n2, n3, n4);
    HttpEnds(fs, fs.nodes[0], fs.nodes[1], fs.nodes[2], fs.nodes[3]);
    assert Closed(fs, true, [n1, n2], []);
    SeparatedFindings(fs, [n1, n2], n1, n4);
    FourNodeHttpFindings(fs, fs.nodes[0], fs.nodes[1], fs.nodes[2], fs.nodes[3]);
  }

  /** An http in wired to a function whose output never reaches the http response: both are flagged. */
  lemma HttpBadlyPositionedWarnsBoth(n1: Id, n2: Id, n3: Id, n4: Id)
    requires n1 != n2 && n1 != n3 && n1 != n4 && n2 != n3 && n2 != n4 && n3 != n4
    ensures Check(ParseFlow([
      Raw(n1, HttpIn, "f1", [[n2]], None),
      Raw(n2, Function, "f1", [], None),
      Raw(n3, Function, "f1", [[n2, n4]], None),
      Raw(n4, HttpResponse, "f1", [], None)]), [HttpInResp]).result == [DanglingHttpIn(n1), DanglingHttpResp(n4)]
  {
    var a, b, c, d := Raw(n1, HttpIn, "f1", [[n2]], None), Raw(n2, Function, "f1", [], None),
      Raw(n3, Function, "f1", [[n2, n4]], None), Raw(n4, HttpResponse, "f1", [], None);
    var fs := ParseFlow([a, b, c, d]);
    ParsedFour(a, b, c, d);
    BadlyPositionedFindings(fs, n1, n2, n3, n4);
    CheckHttpInResp(fs);
  }

  lemma ViaLinkEdges(fs: FlowSet, n1: Id, n2: Id, n3: Id, n4: Id)
    requires Valid(fs) && n1 != n2 && n1 != n3 && n1 != n4 && n2 != n3 && n2 != n4 && n3 != n4
    requires fs.nodes == [
      Node(n1, HttpIn, "f1", "", [[n2]], []),
      Node(n2, LinkOut, "f1", "", [], [n3]),
      Node(n3, LinkIn, "f1", "", [[n4]], [n2]),
      Node(n4, HttpResponse, "f1", "", [], [])]
    ensures n1 in fs.byId && fs.byId[n1].typ == HttpIn && n4 in fs.byId && fs.byId[n4].typ == HttpResponse
    ensures n2 in fs.byId && n3 in fs.byId
    ensures n2 in OutEdges(fs, n1) && n3 in OutEdges(fs, n2) && n4 in OutEdges(fs, n3)
  {
    var a, b, c, d := fs.nodes[0], fs.nodes[1], fs.nodes[2], fs.nodes[3];
    Indexed(fs, a);
    Indexed(fs, b);
    Indexed(fs, c);
    Indexed(fs, d);
    WiredEdges(fs, a);
    WiredEdges(fs, c);
    OnePort(n2);
    OnePort(n4);
    assert MutualLink(fs, b, n3);
  }

  lemma ViaLinkFindings(fs: FlowSet, n1: Id, n2: Id, n3: Id, n4: Id)
    requires Valid(fs) && n1 != n2 && n1 != n3 && n1 != n4 && n2 != n3 && n2 != n4 && n3 != n4
    requires fs.nodes == [
      Node(n1, HttpIn, "f1", "", [[n2]], []),
      Node(n2, LinkOut, "f1", "", [], [n3]),
      Node(n3, LinkIn, "f1", "", [[n4]], [n2]),
      Node(n4, HttpResponse, "f1", "", [], [])]
    ensures HttpInRespRule(fs) == []
  {
    ViaLinkEdges(fs, n1, n2, n3, n4);
    HttpEnds(fs, fs.nodes[0], fs.nodes[1], fs.nodes[2], fs.nodes[3]);
    ThreeSteps(fs, n1, n2, n3, n4);
    PairCleanFindings(fs, n1, n4);
  }

  /** A link out / link in pair carries the connection from the http in to the http response. */
  lemma HttpConnectedViaLinkClean(n1: Id, n2: Id, n3: Id, n4: Id)
    requires n1 != n2 && n1 != n3 && n1 != n4 && n2 != n3 && n2 != n4 && n3 != n4
    ensures Check(ParseFlow([
      Raw(n1, HttpIn, "f1", [[n2]], None),
      Raw(n2, LinkOut, "f1", [], Some([n3])),
      Raw(n3, LinkIn, "f1", [[n4]], Some([n2])),
      Raw(n4, HttpResponse, "f1", [], None)]), [HttpInResp]).result == []
  {
    var a, b, c, d := Raw(n1, HttpIn, "f1", [[n2]], None), Raw(n2, LinkOut, "f1", [], Some([n3])),
      Raw(n3, LinkIn, "f1", [[n4]], Some([n2])), Raw(n4, HttpResponse, "f1", [], None);
    var fs := ParseFlow([a, b, c, d]);
    ParsedFour(a, b, c, d);
    ViaLinkFindings(fs, n1, n2, n3, n4);
    CheckHttpInResp(fs);
  }

  // -------------------------------------------------------------------- loop

  /** The search from a, where a and b are each other's only neighbour, visits a then b. */
  lemma TwoCycleOrder(fs: FlowSet, a: Id, b: Id)
    requires a in fs.byId && b in fs.byId && a != b
    requires OutEdges(fs, a) == [b] && OutEdges(fs, b) == [a]
    ensures ReachOrder(fs, true, a) == [a, b]
  {
    ExploreVisit(fs, true, [a], []);
    assert [] + [a] == [a] && Succ(fs, true, a) + [a][1..] == [b];
    ExploreVisit(fs, true, [b], [a]);
    assert [a] + [b] == [a, b] && Succ(fs, true, b) + [b][1..] == [a];
    ExploreSkip(fs, true, [a], [a, b]);
    assert [a][1..] == [];
  }

  lemma TwoLoopFindings(fs: FlowSet, n1: Id, n2: Id)
    requires Valid(fs) && n1 != n2
    requires fs.nodes == [Node(n1, Function, "f1", "", [[n2]], []), Node(n2, Function, "f1", "", [[n1]], [])]
    ensures LoopRule(fs) == [PossibleLoop([n1, n2])]
  {
    var a, b := fs.nodes[0], fs.nodes[1];
    Indexed(fs, a);
    Indexed(fs, b);
    WiredEdges(fs, a);
    WiredEdges(fs, b);
    OnePort(n1);
    OnePort(n2);
    TwoCycleOrder(fs, n1, n2);
    TwoCycleOrder(fs, n2, n1);
    assert [n1, n2][1..] == [n2] && [n2][1..] == [];
    assert Returning(fs, [n2], n1) == [n2];
    assert Scc(fs, n1) == [n1, n2];
    assert IsLoopRoot(fs, 0);
    assert !IsLoopRoot(fs, 1);
    assert Loops(fs, 1) == [PossibleLoop([n1, n2])];
  }

  /** Two function nodes wired to each other form one loop, reported with both ids. */
  lemma LoopWarnsTwoFunctions(n1: Id, n2: Id)
    requires n1 != n2
    ensures Check(ParseFlow([Raw(n1, Function, "f1", [[n2]], None), Raw(n2, Function, "f1", [[n1]], None)]),
      [Loop]).result == [PossibleLoop([n1, n2])]
  {
    var a, b := Raw(n1, Function, "f1", [[n2]], None), Raw(n2, Function, "f1", [[n1]], None);
    var fs := ParseFlow([a, b]);
    ParsedTwo(a, b);
    TwoLoopFindings(fs, n1, n2);
    CheckLoop(fs);
  }

  /** The search around a three-node cycle a -> b -> c -> a visits a, b, c in that order. */
  lemma ThreeCycleOrder(fs: FlowSet, a: Id, b: Id, c: Id)
    requires a in fs.byId && b in fs.byId && c in fs.byId && a != b && b != c && a != c
    requires OutEdges(fs, a) == [b] && OutEdges(fs, b) == [c] && OutEdges(fs, c) == [a]
    ensures ReachOrder(fs, true, a) == [a, b, c]
  {
    ExploreVisit(fs, true, [a], []);
    assert [] + [a] == [a] && Succ(fs, true, a) + [a][1..] == [b];
    ExploreVisit(fs, true, [b], [a]);
    assert [a] + [b] == [a, b] && Succ(fs, true, b) + [b][1..] == [c];
    ExploreVisit(fs, true, [c], [a, b]);
    assert [a, b] + [c] == [a, b, c] && Succ(fs, true, c) + [c][1..] == [a];
    ExploreSkip(fs, true, [a], [a, b, c]);
    assert [a][1..] == [];
  }

  /** The edges of the link loop: n1 wired to n2, n2 linked to n3, n3 wired back to n1. */
  lemma LinkLoopEdges(fs: FlowSet, n1: Id, n2: Id, n3: Id)
    requires Valid(fs) && n1 != n2 && n2 != n3 && n1 != n3
    requires fs.nodes == [
      Node(n1, Function, "f1", "", [[n2]], []),
      Node(n2, LinkOut, "f1", "", [], [n3]),
      Node(n3, LinkIn, "f1", "", [[n1]], [n2])]
    ensures n1 in fs.byId && n2 in fs.byId && n3 in fs.byId
    ensures OutEdges(fs, n1) == [n2] && OutEdges(fs, n2) == [n3] && OutEdges(fs, n3) == [n1]
  {
    var a, b, c := fs.nodes[0], fs.nodes[1], fs.nodes[2];
    Indexed(fs, a);
    Indexed(fs, b);
    Indexed(fs, c);
    WiredEdges(fs, a);
    WiredEdges(fs, c);
    OnePort(n1);
    OnePort(n2);
    assert MutualLink(fs, b, n3);
    assert LinkTargets(fs, b, [n3]) == [n3];
  }

  /**
   * Three nodes, listed in the order n1, n2, n3, on one cycle n1 -> n2 -> n3 -> n1:
   * n1 is the only root and its component lists all three in search order.
   */
  lemma ThreeCycleFindings(fs: FlowSet, n1: Id, n2: Id, n3: Id)
    requires n1 in fs.byId && n2 in fs.byId && n3 in fs.byId && n1 != n2 && n2 != n3 && n1 != n3
    requires |fs.nodes| == 3 && fs.nodes[0].id == n1 && fs.nodes[1].id == n2 && fs.nodes[2].id == n3
    requires OutEdges(fs, n1) == [n2] && OutEdges(fs, n2) == [n3] && OutEdges(fs, n3) == [n1]
    ensures LoopRule(fs) == [PossibleLoop([n1, n2, n3])]
  {
    ThreeCycleOrder(fs, n1, n2, n3);
    ThreeCycleOrder(fs, n2, n3, n1);
    ThreeCycleOrder(fs, n3, n1, n2);
    assert n1 in ReachSet(fs, true, n1) && n1 in ReachSet(fs, true, n2) && n1 in ReachSet(fs, true, n3);
    assert [n1, n2, n3][1..] == [n2, n3] && [n2, n3][1..] == [n3] && [n3][1..] == [];
    assert Returning(fs, [n3], n1) == [n3];
    assert Returning(fs, [n2, n3], n1) == [n2, n3];
    assert Scc(fs, n1) == [n1, n2, n3];
    assert IsLoopRoot(fs, 0);
    assert Loops(fs, 1) == [PossibleLoop([n1, n2, n3])];
    assert !IsLoopRoot(fs, 1);
    assert Loops(fs, 2) == [PossibleLoop([n1, n2, n3])];
    assert ComponentMetBefore(fs, 2, 1);
    assert !IsLoopRoot(fs, 2);
    assert Loops(fs, 3) == [PossibleLoop([n1, n2, n3])];
  }

  /**
   * A cycle closed through a link out / link in pair is one loop, reported
   * with all three ids in the order the search meets them.
   */
  lemma LoopWarnsThroughLinks(n1: Id, n2: Id, n3: Id)
    requires n1 != n2 && n2 != n3 && n1 != n3
    ensures Check(ParseFlow([
      Raw(n1, Function, "f1", [[n2]], None),
      Raw(n2, LinkOut, "f1", [], Some([n3])),
      Raw(n3, LinkIn, "f1", [[n1]], Some([n2]))]), [Loop]).result == [PossibleLoop([n1, n2, n3])]
  {
    var a, b, c := Raw(n1, Function, "f1", [[n2]], None), Raw(n2, LinkOut, "f1", [], Some([n3])),
      Raw(n3, LinkIn, "f1", [[n1]], Some([n2]));
    var fs := ParseFlow([a, b, c]);
    ParsedThree(a, b, c);
    LinkLoopEdges(fs, n1, n2, n3);
    ThreeCycleFindings(fs, n1, n2, n3);
    CheckLoop(fs);
  }
}
