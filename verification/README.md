# nrlint core rules — a Dafny model

nrlint lints Node-RED flows. A flow export is a list of node records. Each
record has an id, a type, a tab (`z`), an optional name, output `wires`
(one list of target ids per output port) and, on link nodes, `links`.
`FlowSet.parseFlow` turns that list into a graph. `rule.check` runs the
configured subrules of the built-in `core` rule over the graph and returns
`{result: [Diagnostic]}`. Every Diagnostic is
`{rule: 'core', ids, name, severity: 'warn', message}`.

This project models that core:

- `flowmanip.dfy` (module `FlowManip`):
  - node records and their normalised form;
  - `ParseFlow` (node list plus id index);
  - the edges of the graph: every wire, plus an edge from a `link out` to a `link in` when their `links` name each other;
  - the reverse adjacency.
- `traversal.dfy` (module `Traversal`):
  - the visited-set worklist search, forwards or backwards;
  - a proof that it finds exactly the nodes a path leads to, and that backward search is forward reachability read in reverse;
  - cycle detection and strongly connected components.
- `core_rules.dfy` (module `CoreRules`):
  - the four subrules `flowsize`, `no-func-name`, `http-in-resp` and `loop`;
  - the Diagnostic records they emit;
  - `rule.check`, which runs the configured subrules in order and concatenates their findings.
- `scenarios.dfy` (module `Scenarios`): every non-empty case of the core rule test suite as a lemma. The node ids are parameters, so each lemma covers every flow of that shape. The four empty-flow cases are covered by `CoreRules.EmptyFlowClean`.

The implementation files `lib/flowmanip` and `cli/rule.js` are not available.
The behaviour modelled here is the behaviour of those files, inferred from the
cases in `plugins/nrlint-plugin-core/test/rule_spec.js`.

The tests check results with "deep include". The model chooses exact results:
- flowsize reports each over-full tab once, in the order tabs first appear;
- no-func-name reports in node order;
- http-in-resp reports dangling `http in` nodes in node order, then dangling `http response` nodes in node order;
- loop reports one finding per strongly connected component that holds a cycle. The finding sits at the component's first node in input order. Its ids are in the order the search from that node discovers them (`LoopSound`).

Each scenario lemma states the whole result list, which is stronger than the membership the tests check.

## Model

| member | source | states |
|---|---|---|
| FlowManip.ParseFlow | plugins/nrlint-plugin-core/test/rule_spec.js:14-17 | parseFlow keeps one node per record, in input order, each the record with absent optional fields set to empty. The index is consistent with the nodes (every node's id is a key, and every key leads to a node with that id). Every key comes from some record. On duplicate ids the last record wins. |
| FlowManip.ParseFlowFields | plugins/nrlint-plugin-core/test/rule_spec.js:134-139 | each parsed node keeps the record's id, type and tab. It keeps the name, wires and links, and uses the empty default when one is missing. |
| FlowManip.ParseFlowAppend | plugins/nrlint-plugin-core/test/rule_spec.js:116-121 | parsing a concatenation of record lists concatenates the parsed node lists (input order is preserved). |
| FlowManip.Targets | plugins/nrlint-plugin-core/test/rule_spec.js:119 | a wire target of a node is exactly an id on one of its output ports. |
| FlowManip.LinkTargets | plugins/nrlint-plugin-core/test/rule_spec.js:136-137 | a link-out's link targets are exactly the `link in` nodes it names that name it back. |
| FlowManip.OutEdges | plugins/nrlint-plugin-core/test/rule_spec.js:133-143 | t is an out-neighbour of a known node exactly when t is on one of its ports, or it is a `link out` whose mutual `link in` partner is t. An unknown id has no out-edges. |
| FlowManip.InEdges | plugins/nrlint-plugin-core/test/rule_spec.js:115-132 | in a valid flow set, y is an in-neighbour of x exactly when y is a known node with an out-edge to x. |
| Traversal.Explore | plugins/nrlint-plugin-core/test/rule_spec.js:90-98 | the worklist search extends the visited list it is given. It visits only known nodes, and never visits a node twice. |
| Traversal.ExploreClosed | plugins/nrlint-plugin-core/test/rule_spec.js:115-132 | when the search ends, every edge from a visited node to a known node leads to a visited node. |
| Traversal.ExploreSound | plugins/nrlint-plugin-core/test/rule_spec.js:115-132 | every node the search visits is reachable by a path from the start. |
| Traversal.ReachSetSpec | plugins/nrlint-plugin-core/test/rule_spec.js:115-132 | the search from s finds t exactly when a path leads from s to t (both directions of the equivalence). |
| Traversal.ClosedHoldsReachable | plugins/nrlint-plugin-core/test/rule_spec.js:115-132 | a set of nodes closed under edges holds everything reachable from its members. This is why `n1` cannot reach `n4` in the badly positioned case. |
| Traversal.ReachableReverse | plugins/nrlint-plugin-core/test/rule_spec.js:79-89 | backward search from b reaches a exactly when a reaches b forwards. The reverse check for an http response rests on this. |
| Traversal.ReachOrder | plugins/nrlint-plugin-core/test/rule_spec.js:152-176 | the discovery order from a known start lists distinct known nodes, starting with the start node. From an unknown id it is empty. |
| Traversal.CycleThroughSpec | plugins/nrlint-plugin-core/test/rule_spec.js:152-163 | the computed cycle test (some out-neighbour of n reaches n again) holds exactly when a path of at least one edge leads from n back to n. |
| Traversal.ReturningSpec | plugins/nrlint-plugin-core/test/rule_spec.js:164-176 | the filter keeps exactly the members of the order that reach n again. Any two kept members appear in the same relative order as in the input order (`InOrderOf`), and the kept members stay distinct. |
| Traversal.SccSpec | plugins/nrlint-plugin-core/test/rule_spec.js:164-176 | the component of n holds exactly the nodes that reach n and are reached from n, each once. A known n comes first, and the members follow the order in which the search from n visits them. |
| Traversal.MutualOnCycle | plugins/nrlint-plugin-core/test/rule_spec.js:164-176 | every member of the component of a node on a cycle is itself on a cycle. |
| CoreRules.TabIds | plugins/nrlint-plugin-core/test/rule_spec.js:24-32 | the tab list holds every non-empty tab some node belongs to, and nothing else, each once. |
| CoreRules.NodesByTab | plugins/nrlint-plugin-core/test/rule_spec.js:13-23 | the members of a tab are exactly the nodes whose `z` is that tab. |
| CoreRules.NodesByTabAppend | plugins/nrlint-plugin-core/test/rule_spec.js:24-32 | grouping by tab distributes over concatenation, so nodes are counted per tab and not per flow. |
| CoreRules.FlowsizeRule | plugins/nrlint-plugin-core/test/rule_spec.js:13-32 | a flowsize finding is exactly a "too large flow size" warning for a tab with more than maxSize nodes, naming the tab id. No finding is repeated. |
| CoreRules.NoFuncNameRule | plugins/nrlint-plugin-core/test/rule_spec.js:41-59 | a no-func-name finding is exactly a "function node has no name" warning for a `function` node whose name is empty. |
| CoreRules.ReachesResponseSpec | plugins/nrlint-plugin-core/test/rule_spec.js:68-78 | the forward search from an id finds an http response exactly when some http response is reachable from it. |
| CoreRules.ReachedFromHttpInSpec | plugins/nrlint-plugin-core/test/rule_spec.js:79-89 | in a valid flow set, the backward search from an id finds an http in exactly when that id is reachable from some http in. |
| CoreRules.HttpInRespSpec | plugins/nrlint-plugin-core/test/rule_spec.js:68-114 | an http-in-resp finding is exactly one of two warnings. An `http in` from which no `http response` is reachable gives "dangling http-in node". An `http response` that no `http in` reaches gives "dangling http-response node". |
| CoreRules.ConnectedHttpPairClean | plugins/nrlint-plugin-core/test/rule_spec.js:90-98 | an http in connected by any path to an http response flags neither end. |
| CoreRules.ComponentMetBeforeSpec | plugins/nrlint-plugin-core/test/rule_spec.js:164-176 | the scan for an earlier member of node k's component succeeds exactly when one of the earlier nodes reaches node k and is reached from it. |
| CoreRules.LoopsRoots | plugins/nrlint-plugin-core/test/rule_spec.js:152-176 | every loop finding among the first k nodes reports the component of a root among them. A root is a node on a cycle with no earlier member of its component. |
| CoreRules.LoopSound | plugins/nrlint-plugin-core/test/rule_spec.js:152-176 | every loop finding is a "possible infinite loop detected" warning. Its first id is on a cycle. Its ids are distinct, they are exactly the nodes in that node's strongly connected component, and they follow the order in which the search from the first id discovers them. |
| CoreRules.LoopsCover | plugins/nrlint-plugin-core/test/rule_spec.js:152-176 | a node among the first k that lies on a cycle is named by some loop finding among the first k. |
| CoreRules.LoopComplete | plugins/nrlint-plugin-core/test/rule_spec.js:152-176 | every node on a cycle is named by some loop finding. |
| CoreRules.LoopsDistinct | plugins/nrlint-plugin-core/test/rule_spec.js:152-176 | no loop finding is reported twice. |
| CoreRules.LoopDisjoint | plugins/nrlint-plugin-core/test/rule_spec.js:152-176 | no two loop findings share an id, so each cycle is reported once, as one merged component. |
| CoreRules.LoopAcyclic | plugins/nrlint-plugin-core/test/rule_spec.js:146-151 | a flow without cycles gets no loop finding. |
| FlowManip.Normalize | plugins/nrlint-plugin-core/test/rule_spec.js:14-17 | the normalised form of one record; specified by `ParseFlow` and `ParseFlowFields`. |
| FlowManip.Index | plugins/nrlint-plugin-core/test/rule_spec.js:14-17 | the id index: every node's id is a key, every key leads to a node with that id, and the last record with an id is the one indexed. `ParseFlow` inherits these. |
| Traversal.ReachSet | plugins/nrlint-plugin-core/test/rule_spec.js:115-132 | the reachable set of the search; specified by `ReachSetSpec`, `ReachableReverse` and `ClosedHoldsReachable`. |
| Traversal.CycleThrough | plugins/nrlint-plugin-core/test/rule_spec.js:152-163 | the cycle test of the loop subrule; specified by `CycleThroughSpec`. |
| Traversal.Scc | plugins/nrlint-plugin-core/test/rule_spec.js:164-176 | the component reported by a loop finding; `SccSpec` states its members and that they follow the discovery order of the search from n, and `MutualOnCycle` that every member is on a cycle. |
| CoreRules.HttpInRespRule | plugins/nrlint-plugin-core/test/rule_spec.js:68-143 | the http-in-resp subrule; specified by `HttpInRespSpec`, `ReachesResponseSpec`, `ReachedFromHttpInSpec` and `ConnectedHttpPairClean`. |
| CoreRules.Loops | plugins/nrlint-plugin-core/test/rule_spec.js:152-176 | the loop findings of the first k nodes; specified by `LoopsRoots` (soundness), `LoopsCover` (completeness for that prefix) and `LoopsDistinct`. |
| CoreRules.LoopRule | plugins/nrlint-plugin-core/test/rule_spec.js:152-176 | the loop subrule; specified by `LoopSound`, `LoopComplete`, `LoopDisjoint` and `LoopAcyclic`. |
| CoreRules.RunSubrule | plugins/nrlint-plugin-core/test/rule_spec.js:9-10 | dispatch of one configured subrule to `FlowsizeRule`, `NoFuncNameRule`, `HttpInRespRule` or `LoopRule`; specified through `CheckSpec` and `CheckWarnsOnly`. |
| CoreRules.Check | plugins/nrlint-plugin-core/test/rule_spec.js:9-10 | rule.check; specified by `CheckSpec`, `CheckConcat`, `CheckWarnsOnly` and `EmptyFlowClean`. |
| CoreRules.CheckSpec | plugins/nrlint-plugin-core/test/rule_spec.js:9-10 | a finding of rule.check is exactly a finding of one of the configured subrules. |
| CoreRules.CheckWarnsOnly | plugins/nrlint-plugin-core/test/rule_spec.js:20-22 | every finding of rule.check has rule "core" and severity "warn". |
| CoreRules.CheckConcat | plugins/nrlint-plugin-core/test/rule_spec.js:9 | findings keep subrule order: checking `a + b` returns the findings of `a`, then those of `b`. |
| CoreRules.EmptyFlowClean | plugins/nrlint-plugin-core/test/rule_spec.js:7-12 | the empty flow yields no finding, whatever subrules are configured. This covers the empty-flow case of all four subrules (also lines 35-40, 62-67 and 146-151). |
| Scenarios.FlowsizeWarnsLargeFlow | plugins/nrlint-plugin-core/test/rule_spec.js:13-23 | two nodes on one tab with maxSize 1 give exactly one warning, naming the tab. |
| Scenarios.FlowsizeSplitTabsClean | plugins/nrlint-plugin-core/test/rule_spec.js:24-32 | one node on each of two tabs with maxSize 1 gives no finding. |
| Scenarios.NoFuncNameWarnsEmptyName | plugins/nrlint-plugin-core/test/rule_spec.js:41-51 | a function node with an empty name gives exactly one no-func-name warning with its id. |
| Scenarios.NoFuncNameAcceptsName | plugins/nrlint-plugin-core/test/rule_spec.js:52-59 | a function node with any non-empty name gives no finding. |
| Scenarios.HttpWarnsDanglingIn | plugins/nrlint-plugin-core/test/rule_spec.js:68-78 | a lone unwired http in gives exactly one dangling-http-in warning with its id. |
| Scenarios.HttpWarnsDanglingResp | plugins/nrlint-plugin-core/test/rule_spec.js:79-89 | a lone http response gives exactly one dangling-http-resp warning with its id. |
| Scenarios.HttpConnectedClean | plugins/nrlint-plugin-core/test/rule_spec.js:90-98 | an http in wired directly to an http response gives no finding. |
| Scenarios.HttpUnconnectedWarnsBoth | plugins/nrlint-plugin-core/test/rule_spec.js:99-114 | an unwired http in and an http response give both warnings, the http in first. |
| Scenarios.HttpBadlyPositionedWarnsBoth | plugins/nrlint-plugin-core/test/rule_spec.js:115-132 | here the http in feeds n2 only, and the response is fed from n3. Both the http in and the http response are flagged, and nothing else. |
| Scenarios.HttpConnectedViaLinkClean | plugins/nrlint-plugin-core/test/rule_spec.js:133-143 | a path through a mutual link out / link in pair connects the http in to the response, so there is no finding. |
| Scenarios.LoopWarnsTwoFunctions | plugins/nrlint-plugin-core/test/rule_spec.js:152-163 | two function nodes wired to each other give exactly one loop warning with ids `[n1, n2]`. |
| Scenarios.LoopWarnsThroughLinks | plugins/nrlint-plugin-core/test/rule_spec.js:164-176 | a cycle closed through a mutual link pair gives exactly one loop warning with ids `[n1, n2, n3]`, in discovery order. |

## Left out

- Parsing errors: a record without an id, or input that is not a list, is not modelled. `RawNode` always carries an id.
- Unknown subrule names: configuration is the `Subrule` datatype, so a subrule name outside the four cannot be written, and its error path is not modelled.
- The third argument of `rule.check` (the plugin list), plugin discovery, configuration-file loading and the command line are not modelled. They are I/O or registry plumbing that no core finding depends on.
- The func-style-eslint plugin is not modelled. Its findings are ESLint's, and ESLint is not part of this model.
- Node positions `x` and `y` and every record field other than id, type, z, name, wires and links are dropped by parsing, because no finding depends on them.
- Duplicate ids: the model fixes one behaviour, where the last record wins in the index. Both records stay in the node list, and no test pins this down.
- Link edges: only a direct mutual pair (a `link out` naming a `link in` that names it back) is an edge. A one-sided reference (a `link out` naming a `link in` that does not name it back, or the reverse) gives no edge, because `MutualLink` requires both names. Chaining semantics beyond ordinary path composition are not modelled.
- CoreRules.LoopRule: a stricter rule that reports only cycles with at least two non-link members would not warn on rule_spec.js:164-176, where the cycle has one function node and two link nodes. So the model reports every strongly connected component that holds a cycle.
- CoreRules.HttpInRespRule: reachability is plain graph reachability. No node type stops the search (for example a second http in on the path).
- Result order across subrules, and within a subrule, is the model's own choice (see above). The tests fix only membership and the id order inside a loop finding.
