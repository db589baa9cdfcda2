/**
 * The flow graph model: node records as they come from a flow export,
 * their normalised form, the parsed FlowSet (node list plus id index)
 * and the resolved adjacency (wire edges plus link-out -> link-in edges).
 */
module FlowManip {

  type Id = string

  datatype Option<T> = None | Some(value: T)

  function GetOr<T>(o: Option<T>, default: T): T
  {
    match o
    case Some(v) => v
    case None => default
  }

  // Node types the core rules look at.
  const Function: string := "function"
  const HttpIn: string := "http in"
  const HttpResponse: string := "http response"
  const LinkIn: string := "link in"
  const LinkOut: string := "link out"

  /** One record of the exported flow; fields other than these (x, y, ...) are ignored. */
  datatype RawNode = RawNode(
    id: Id,
    typ: string,
    z: Option<Id>,
    name: Option<string>,
    wires: Option<seq<seq<Id>>>,
    links: Option<seq<Id>>)

  /** A normalised node: every optional field has its empty default. */
  datatype Node = Node(
    id: Id,
    typ: string,
    z: Id,
    name: string,
    wires: seq<seq<Id>>,
    links: seq<Id>)

  /** The parsed flow: the nodes in input order and the index from id to node. */
  datatype FlowSet = FlowSet(nodes: seq<Node>, byId: map<Id, Node>)

  predicate Distinct<T(==)>(s: seq<T>)
  {
    forall i, j :: 0 <= i < j < |s| ==> s[i] != s[j]
  }

  lemma DistinctAppend<T>(s: seq<T>, x: T)
    requires Distinct(s) && x !in s
    ensures Distinct(s + [x])
  {
  }

  function Elems<T>(s: seq<T>): set<T>
  {
    set x | x in s
  }

  /** The id of every node, the keys of the index, and the node each key leads to agree. */
  ghost predicate Valid(fs: FlowSet)
  {
    && (forall n :: n in fs.nodes ==> n.id in fs.byId)
    && (forall id :: id in fs.byId ==> fs.byId[id].id == id && fs.byId[id] in fs.nodes)
  }

  function Normalize(r: RawNode): Node
  {
    Node(r.id, r.typ, GetOr(r.z, ""), GetOr(r.name, ""), GetOr(r.wires, []), GetOr(r.links, []))
  }

  /** No later node in `nodes` has the id of nodes[i]. */
  ghost predicate LastWithId(nodes: seq<Node>, i: int)
    requires 0 <= i < |nodes|
  {
    forall j :: i < j < |nodes| ==> nodes[j].id != nodes[i].id
  }

  /** The id index; on duplicate ids the later record replaces the earlier one. */
  function Index(nodes: seq<Node>): (m: map<Id, Node>)
    ensures forall i :: 0 <= i < |nodes| ==> nodes[i].id in m
    ensures forall id :: id in m ==> m[id].id == id && m[id] in nodes
    ensures forall i :: 0 <= i < |nodes| && LastWithId(nodes, i) ==> nodes[i].id in m && m[nodes[i].id] == nodes[i]
  {
    if nodes == [] then map[]
    else
      var tail := Index(nodes[1..]);
      var m := if nodes[0].id in tail then tail else tail[nodes[0].id := nodes[0]];
      IndexStep(nodes, tail, m);
      m
  }

  /** Adding the first record in front of an index of the rest keeps the three index properties. */
  lemma IndexStep(nodes: seq<Node>, tail: map<Id, Node>, m: map<Id, Node>)
    requires nodes != []
    requires forall i :: 0 <= i < |nodes[1..]| ==> nodes[1..][i].id in tail
    requires forall id :: id in tail ==> tail[id].id == id && tail[id] in nodes[1..]
    requires forall i :: 0 <= i < |nodes[1..]| && LastWithId(nodes[1..], i) ==>
      nodes[1..][i].id in tail && tail[nodes[1..][i].id] == nodes[1..][i]
    requires m == if nodes[0].id in tail then tail else tail[nodes[0].id := nodes[0]]
    ensures forall i :: 0 <= i < |nodes| ==> nodes[i].id in m
    ensures forall id :: id in m ==> m[id].id == id && m[id] in nodes
    ensures forall i :: 0 <= i < |nodes| && LastWithId(nodes, i) ==> nodes[i].id in m && m[nodes[i].id] == nodes[i]
  {
    forall i | 0 < i < |nodes| ensures nodes[i].id in m {
      assert nodes[i] == nodes[1..][i - 1];
    }
    forall id | id in m ensures m[id].id == id && m[id] in nodes {
      if id != nodes[0].id || nodes[0].id in tail {
        assert tail[id] in nodes[1..];
      }
    }
    forall i | 0 <= i < |nodes| && LastWithId(nodes, i) ensures nodes[i].id in m && m[nodes[i].id] == nodes[i] {
      if i > 0 {
        assert nodes[i] == nodes[1..][i - 1];
        assert LastWithId(nodes[1..], i - 1);
      }
    }
  }

  /** Every record normalised, in input order. */
  function NormalizeAll(raw: seq<RawNode>): (nodes: seq<Node>)
    ensures |nodes| == |raw| && forall i :: 0 <= i < |raw| ==> nodes[i] == Normalize(raw[i])
  {
    if raw == [] then [] else [Normalize(raw[0])] + NormalizeAll(raw[1..])
  }

  /** FlowSet.parseFlow: normalise every record, keep input order, build the id index. */
  function ParseFlow(raw: seq<RawNode>): (fs: FlowSet)
    ensures Valid(fs)
    ensures |fs.nodes| == |raw| && forall i :: 0 <= i < |raw| ==> fs.nodes[i] == Normalize(raw[i])
    ensures forall id :: id in fs.byId ==> exists i :: 0 <= i < |raw| && raw[i].id == id
    ensures forall i :: 0 <= i < |raw| && LastWithId(fs.nodes, i) ==> raw[i].id in fs.byId && fs.byId[raw[i].id] == fs.nodes[i]
  {
    var nodes := NormalizeAll(raw);
    FlowSet(nodes, Index(nodes))
  }

  /** Each parsed node keeps the record's id and type and takes the empty default for an absent field. */
  lemma ParseFlowFields(raw: seq<RawNode>)
    ensures forall i :: 0 <= i < |raw| ==>
      && ParseFlow(raw).nodes[i].id == raw[i].id
      && ParseFlow(raw).nodes[i].typ == raw[i].typ
      && ParseFlow(raw).nodes[i].z == GetOr(raw[i].z, "")
      && ParseFlow(raw).nodes[i].name == GetOr(raw[i].name, "")
      && ParseFlow(raw).nodes[i].wires == GetOr(raw[i].wires, [])
      && ParseFlow(raw).nodes[i].links == GetOr(raw[i].links, [])
  {
  }

  lemma NormalizeAllAppend(x: seq<RawNode>, y: seq<RawNode>)
    ensures NormalizeAll(x + y) == NormalizeAll(x) + NormalizeAll(y)
  {
    var l, r, xy := NormalizeAll(x), NormalizeAll(y), NormalizeAll(x + y);
    forall i | 0 <= i < |xy| ensures xy[i] == (l + r)[i] {
      if i < |x| {
        assert (x + y)[i] == x[i];
      } else {
        assert (x + y)[i] == y[i - |x|];
      }
    }
  }

  /** Parsing keeps input order, so parsing a concatenation concatenates the parsed nodes. */
  lemma ParseFlowAppend(x: seq<RawNode>, y: seq<RawNode>)
    ensures ParseFlow(x + y).nodes == ParseFlow(x).nodes + ParseFlow(y).nodes
  {
    NormalizeAllAppend(x, y);
    assert ParseFlow(x + y).nodes == NormalizeAll(x + y);
    assert ParseFlow(x).nodes == NormalizeAll(x);
    assert ParseFlow(y).nodes == NormalizeAll(y);
  }

  /** Every target of every output port, port by port. */
  function Targets(wires: seq<seq<Id>>): (r: seq<Id>)
    ensures forall t :: t in r <==> exists port :: port in wires && t in port
  {
    if wires == [] then []
    else
      assert forall port :: port in wires ==> port == wires[0] || port in wires[1..];
      wires[0] + Targets(wires[1..])
  }

  /** `out` (a link out node) and the node `t` name each other: t is a link in whose links hold out.id. */
  predicate MutualLink(fs: FlowSet, out: Node, t: Id)
  {
    && out.typ == LinkOut
    && t in out.links
    && t in fs.byId
    && fs.byId[t].typ == LinkIn
    && out.id in fs.byId[t].links
  }

  /** The entries of `links` that confirm the link back to `out`. */
  function LinkTargets(fs: FlowSet, out: Node, links: seq<Id>): (r: seq<Id>)
    requires forall t :: t in links ==> t in out.links
    ensures forall t :: t in r <==> t in links && MutualLink(fs, out, t)
  {
    if links == [] then []
    else
      var rest := LinkTargets(fs, out, links[1..]);
      if MutualLink(fs, out, links[0]) then [links[0]] + rest else rest
  }

  /** FlowSet outEdges: wire targets, plus the confirmed link in partners of a link out node. */
  function OutEdges(fs: FlowSet, id: Id): (r: seq<Id>)
    ensures forall t :: t in r <==>
      && id in fs.byId
      && ((exists port :: port in fs.byId[id].wires && t in port) || MutualLink(fs, fs.byId[id], t))
  {
    if id !in fs.byId then []
    else
      var n := fs.byId[id];
      Targets(n.wires) + (if n.typ == LinkOut then LinkTargets(fs, n, n.links) else [])
  }

  /** The ids of the nodes of `nodes` that have an edge to x. */
  function Sources(fs: FlowSet, nodes: seq<Node>, x: Id): (r: seq<Id>)
    ensures forall y :: y in r <==> (exists n :: n in nodes && n.id == y) && x in OutEdges(fs, y)
  {
    if nodes == [] then []
    else
      assert forall n :: n in nodes ==> n == nodes[0] || n in nodes[1..];
      var rest := Sources(fs, nodes[1..], x);
      if x in OutEdges(fs, nodes[0].id) then [nodes[0].id] + rest else rest
  }

  /** The reverse adjacency: every node with an edge into x. */
  function InEdges(fs: FlowSet, x: Id): (r: seq<Id>)
    ensures Valid(fs) ==> forall y :: y in r <==> y in fs.byId && x in OutEdges(fs, y)
  {
    Sources(fs, fs.nodes, x)
  }
}
