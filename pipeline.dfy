/**
 * The generator end to end (final_construct.java, lines 10-221): read the
 * node records, refuse a start node that is not among them, canonicalise
 * the adjacency records, expand arcs and neighbour indexes, and emit the
 * objective, the `Subject To` section and the variable sections.
 */
module Pipeline {
  import opened Wrappers
  import opened Ids
  import opened Edges
  import opened Arcs
  import opened Lp
  import opened Formulation
  import opened Sections

  /** A parsed node-data line: the identifier and its reward. */
  datatype NodeRecord = NodeRecord(id: NodeId, reward: real)

  /** The one failure the generator reports itself (lines 45-47). */
  datatype Error = StartNodeNotFound(start: NodeId)

  /** The model file's content, structurally. */
  datatype LpModel = LpModel(start: NodeId, objective: seq<Term>, constraints: seq<Row>, listing: Listing)

  /** The constants of lines 18-25. */
  const Standard: Config := Config("57", 0.5, 2.0, 15.0)

  /** The node list in file order, repeats included (line 37). */
  function NodeIds(records: seq<NodeRecord>): seq<NodeId>
    decreases |records|
  {
    if records == [] then [] else NodeIds(records[..|records| - 1]) + [records[|records| - 1].id]
  }

  /** The reward map; `HashMap.put` keeps the last reward read for an identifier (line 38). */
  function Rewards(records: seq<NodeRecord>): map<NodeId, real>
    decreases |records|
  {
    if records == [] then map[]
    else
      var r := records[|records| - 1];
      Rewards(records[..|records| - 1])[r.id := r.reward]
  }

  /** The node-reading loop of lines 31-39, on already parsed records. */
  method ReadNodes(records: seq<NodeRecord>) returns (nodes: seq<NodeId>, reward: map<NodeId, real>)
    ensures nodes == NodeIds(records) && reward == Rewards(records)
  {
    nodes := [];
    reward := map[];
    for k := 0 to |records|
      invariant nodes == NodeIds(records[..k]) && reward == Rewards(records[..k])
    {
      assert records[..k + 1][..k] == records[..k];
      nodes := nodes + [records[k].id];
      reward := reward[records[k].id := records[k].reward];
    }
    assert records[..|records|] == records;
  }

  /** The node list holds one identifier per record, in file order, repeats kept. */
  lemma {:induction false} NodeIdsShape(records: seq<NodeRecord>)
    ensures |NodeIds(records)| == |records|
    ensures forall k :: 0 <= k < |records| ==> NodeIds(records)[k] == records[k].id
    decreases |records|
  {
    if records != [] {
      var init := records[..|records| - 1];
      NodeIdsShape(init);
      forall k | 0 <= k < |init| ensures init[k] == records[k] { }
    }
  }

  /** Exactly the nodes have a reward. */
  lemma {:induction false} RewardKeys(records: seq<NodeRecord>)
    ensures Rewards(records).Keys == NodeSet(NodeIds(records))
    decreases |records|
  {
    if records != [] {
      var init := records[..|records| - 1];
      RewardKeys(init);
      assert NodeIds(records) == NodeIds(init) + [records[|records| - 1].id];
    }
  }

  /** A node's reward is that of the last record carrying its identifier. */
  lemma {:induction false} RewardIsLastRecord(records: seq<NodeRecord>, k: nat)
    requires k < |records|
    requires forall p :: k < p < |records| ==> records[p].id != records[k].id
    ensures records[k].id in Rewards(records) && Rewards(records)[records[k].id] == records[k].reward
    decreases |records|
  {
    var init := records[..|records| - 1];
    if k < |init| {
      forall p | k < p < |init| ensures init[p].id != init[k].id {
        assert init[p] == records[p];
      }
      RewardIsLastRecord(init, k);
      assert init[k] == records[k];
    }
  }

  lemma RewardsCoverNodes(records: seq<NodeRecord>)
    ensures forall v :: v in NodeIds(records) ==> v in Rewards(records)
  {
    RewardKeys(records);
  }

  /** The stored edges for a node list and the adjacency records. */
  function StoredEdges(nodes: seq<NodeId>, adjacency: seq<Record>): (edges: seq<Edge>)
    ensures Canonical(NodeSet(nodes), edges) && Endpoints(nodes, edges)
  {
    CanonicalEdgesAreCanonical(NodeSet(nodes), adjacency);
    CanonicalEdges(NodeSet(nodes), adjacency)
  }

  /** What the generator produces: a model, or the start-node error before anything is written. */
  function Formulate(records: seq<NodeRecord>, adjacency: seq<Record>, cfg: Config): Result<LpModel, Error> {
    var nodes := NodeIds(records);
    if cfg.start !in nodes then Failure(StartNodeNotFound(cfg.start))
    else
      var x := Expand(nodes, StoredEdges(nodes, adjacency));
      RewardsCoverNodes(records);
      Success(LpModel(cfg.start, ObjectiveTerms(nodes, Rewards(records)),
                      Constraints(nodes, x.arcs, x.inNbr, x.outNbr, cfg),
                      Listed(nodes, x.arcs, cfg.start)))
  }

  /** `main` from the node list on (lines 28-221), with the constants of line 18-25 as `cfg`. */
  method Build(records: seq<NodeRecord>, adjacency: seq<Record>, cfg: Config) returns (r: Result<LpModel, Error>)
    ensures r == Formulate(records, adjacency, cfg)
  {
    var nodes, reward := ReadNodes(records);
    if cfg.start !in nodes {
      return Failure(StartNodeNotFound(cfg.start));
    }
    var undirected := CanonicaliseEdges(NodeSet(nodes), adjacency);
    assert undirected == StoredEdges(nodes, adjacency);
    var arcs, outNbr, inNbr := ExpandArcs(nodes, undirected);
    RewardsCoverNodes(records);
    var objective := EmitObjective(nodes, reward);
    var constraints := EmitConstraints(nodes, arcs, inNbr, outNbr, cfg);
    var listing := ListVariables(nodes, arcs, cfg.start);
    r := Success(LpModel(cfg.start, objective, constraints, listing));
  }

  /** The run fails exactly when the start node is not a node, and then with that node's name. */
  lemma FailsOnlyForMissingStart(records: seq<NodeRecord>, adjacency: seq<Record>, cfg: Config)
    ensures Formulate(records, adjacency, cfg).Failure? <==> cfg.start !in NodeIds(records)
    ensures Formulate(records, adjacency, cfg).Failure? ==>
      Formulate(records, adjacency, cfg).error == StartNodeNotFound(cfg.start)
    ensures Formulate(records, adjacency, cfg).Success? ==> Formulate(records, adjacency, cfg).value.start == cfg.start
  {
  }
}
