# BTN sampling cycle: LP model generator

`final_construct` reads a list of nodes with rewards and a list of
adjacencies. It writes a mixed-integer linear program in CPLEX LP format
for a closed sampling tour from a fixed start node. The tour maximises
collected reward within a time budget, and Miller–Tucker–Zemlin (MTZ)
position variables rule out subtours.

This project models the generator's core in Dafny, from the parsed input
records to the content of the model file:

- refusing a start node that is not among the nodes;
- canonicalising the undirected edges;
- expanding each edge into two arcs and building insertion-ordered
  neighbour sets;
- emitting the objective and every row of `Subject To` in print order;
- listing the variables of `Binary` and `General`, wrapped 10 or 16 per
  line.

The loops that read records, store edges, expand arcs, emit rows and wrap
variable lines are Dafny methods, each proved equal to a recursive
specification function. The entries each variable line lists (lines
183-184, 195-196 and 209-211) are the functions `Sections.NodeEntries`,
`Sections.ArcEntries` and `Sections.GeneralEntries`, and only their wrapping
is the method `Sections.Wrap`. What the source promises is proved as lemmas
about those functions:

- the rows each arc and node receive, and how often;
- what a satisfying assignment means, block of rows by block of rows;
- that no closed walk of used arcs avoids the start node;
- that every variable is listed in order and within the line width.

Modules, one file each:

- `Wrappers` (`Option`, `Result`) and `Ids`. `Ids` holds Java's string
  order `compareTo <= 0` as `LexLe`, and `LinkedHashSet.add` as `Insert`.
- `Edges` turns adjacency records into stored edges. `Arcs` holds the arcs
  and the `out`/`in` indexes.
- `Lp` holds variables, terms, named rows and `Holds`. `Formulation` holds
  the row builders and the emitting loops.
- `Counts` gives how often each name occurs. `Semantics` gives what the
  rows mean for an assignment. `Sections` covers the wrapping.
- `Pipeline` holds `Build` and its specification `Formulate`. `Guarantees`
  restates the properties end to end.
- `EdgeKey` and `Isolation` hold the first and third findings below; the
  second is in `Lp`, beside the printed text of names.

Modelling choices:

- An adjacency record is the list of comma-separated fields of a line, so
  the `t.length < 2` case is kept.
- A node record is an already parsed `(id, reward)` pair.
- Coefficients are Dafny `real`s.
- N is the length of the node list, repeated node lines included, as
  `nodes.size()` is in the source. Per-node row counts are therefore
  stated per occurrence.
- The stored edges are kept as pairs rather than as the source's string
  key, and repeats are dropped as pairs. The source's key set is modelled
  beside them (`EdgeKey.KeySet`), and `EdgeKey.KeyReadingAgrees` shows that
  both give the same arcs whenever identifiers hold no bar; see the first
  finding.
- Variables and row labels are kept as structured values. Their printed
  text is `Lp.VarText` and `Lp.NameText`; see the second finding.
- The comment at line 105 states the intent `in_v = out_v = y_v` for each
  node (a closed tour). The code omits a node's degree rows when it has no
  neighbours, which leaves such a node free to be visited. The model
  follows the code; see the third finding.

## Model

| member | source | states |
|---|---|---|
| Ids.LexLeTotal | code/final_construct.java:59-60 | any two identifiers are ordered one way or the other, so the ternaries always pick an orientation |
| Ids.LexLeAntisymmetric | code/final_construct.java:59-60 | identifiers ordered both ways are equal, so distinct endpoints have one orientation |
| Ids.LexLe | code/final_construct.java:59-60 | Java's `compareTo <= 0` on strings; characterised by the four lemmas below |
| Ids.LexLePrefix | code/final_construct.java:59-60 | a prefix compares first |
| Ids.LexLeFirstDifference | code/final_construct.java:59-60 | at the first differing position, the order is that of the two characters, in both directions |
| Ids.Insert | code/final_construct.java:61 | `LinkedHashSet.add`; characterised by `InsertSpec` |
| Ids.InsertSpec | code/final_construct.java:61 | adding keeps the existing elements in order, appends a new element at the end, leaves a present one alone, and never creates a repeat |
| Ids.NoDupCount | code/final_construct.java:61 | in a list without repeats, an element occurs once or not at all |
| Edges.Canon | code/final_construct.java:56-60 | a record yields an edge iff it has two fields, both are known nodes and they differ; the edge is the pair in one of its two orders and is valid (known, distinct, ordered) |
| Edges.CanonicaliseEdges | code/final_construct.java:50-62 | the reading loop, with its three `continue`s, stores exactly the canonical edge list |
| Edges.CanonSymmetric | code/final_construct.java:59-60 | a record and its reversal canonicalise to the same edge |
| Edges.CanonicalEdgesAreCanonical | code/final_construct.java:58-61 | every stored edge has known, distinct, lexicographically ordered endpoints, and no edge is stored twice |
| Edges.CanonicalEdgesMembers | code/final_construct.java:50-61 | an edge is stored iff some record canonicalises to it |
| Edges.CanonicalEdgesFirstOccurrence | code/final_construct.java:50-61 | stored edges are in order of first occurrence: an earlier stored edge comes from an earlier record |
| Edges.RepeatOrReversalIgnored | code/final_construct.java:59-61 | a repeat of a record, in either direction, leaves the stored edges unchanged |
| Arcs.EmptyIndex | code/final_construct.java:69-72 | every node starts with an empty neighbour set and no other key exists |
| Arcs.EmptyIndexes | code/final_construct.java:69-72 | the initialisation loop gives every node an empty out-set and in-set, and no other key |
| Arcs.OutIndex | code/final_construct.java:79-80 | the out-index has exactly the nodes as keys |
| Arcs.InIndex | code/final_construct.java:79-80 | the in-index has exactly the nodes as keys |
| Arcs.ExpandArcs | code/final_construct.java:66-81 | the expansion loop builds exactly the arc list and both neighbour indexes of the stored edges |
| Arcs.SuccessorsMembers | code/final_construct.java:77-79 | w is a successor of v iff the arc (v, w) is in the arc list |
| Arcs.PredecessorsMembers | code/final_construct.java:77-79 | w is a predecessor of v iff the arc (w, v) is in the arc list |
| Arcs.ArcsShape | code/final_construct.java:74-78 | there are twice as many arcs as edges, and edge k yields arcs 2k = (i, j) and 2k+1 = (j, i) |
| Arcs.ArcsMembers | code/final_construct.java:77-78 | an arc is present iff some stored edge has it in one of its two directions |
| Arcs.ReverseArcPresent | code/final_construct.java:77-78 | every arc's reverse is present and both endpoints are nodes |
| Arcs.NewEdgeArcsAreNew | code/final_construct.java:61-78 | a newly stored edge adds arcs that were not yet present |
| Arcs.ArcsDistinct | code/final_construct.java:61-78 | the arc list has no repeats |
| Arcs.OutIndexFollowsArcs | code/final_construct.java:77-80 | out(v) lists the heads of the arcs leaving v, in arc order |
| Arcs.InIndexFollowsArcs | code/final_construct.java:77-80 | in(v) lists the tails of the arcs entering v, in arc order |
| Arcs.IndexInvariant | code/final_construct.java:69-80 | j is in out(i) iff (i, j) is an arc iff i is in in(j), and neighbour sets hold only nodes |
| Formulation.EmitObjective | code/final_construct.java:90-96 | the objective loop builds exactly the term list that `ObjectiveShape` characterises |
| Formulation.ObjectiveShape | code/final_construct.java:92-94 | the objective has one term per node, in node order, and term k is reward times x of node k, so only sampling earns reward |
| Formulation.CollectInTerms | code/final_construct.java:111-115 | the inner loop builds exactly the term list that `InTermsShape` characterises |
| Formulation.CollectOutTerms | code/final_construct.java:124-128 | the inner loop builds exactly the term list that `OutTermsShape` characterises |
| Formulation.InTermsShape | code/final_construct.java:111-115 | the InEq sum has one term per in-neighbour, and term k is e from in-neighbour k to v, in insertion order |
| Formulation.OutTermsShape | code/final_construct.java:124-128 | the OutEq sum has one term per out-neighbour, and term k is e from v to out-neighbour k, in insertion order |
| Formulation.EmitNodeDegreeRows | code/final_construct.java:108-131 | a node gets InEq_v iff in(v) is non-empty and OutEq_v iff out(v) is non-empty, each ending in `- y_v = 0` |
| Formulation.EmitDegreeRows | code/final_construct.java:106-132 | the degree loop emits the degree rows of every node in node order |
| Formulation.EmitCouplingRows | code/final_construct.java:135-139 | each arc emits ArcFrom then ArcTo, in arc order |
| Formulation.EmitMtzRows | code/final_construct.java:143-157 | MTZ_Start, then LB and UB for every non-start node, then an ordering row for every arc not entering the start |
| Formulation.EmitSampleRows | code/final_construct.java:160-162 | one sampling row per node, in node order |
| Formulation.EmitTimeBudget | code/final_construct.java:166-175 | the budget row sums travel y_v + sample x_v over the nodes, with the budget as its bound |
| Formulation.EmitConstraints | code/final_construct.java:100-176 | the whole `Subject To` section, in print order |
| Counts.ConstraintsAreBlocks | code/final_construct.java:100-176 | the section is its eight blocks one after the other |
| Counts.BlocksAreNamed | code/final_construct.java:100-176 | each block holds only rows of its own kind |
| Counts.CountInSection | code/final_construct.java:100-176 | a name occurs in the section exactly as often as in its own block |
| Counts.DegreeCounts | code/final_construct.java:106-132 | InEq_v occurs once per occurrence of v iff in(v) is non-empty, otherwise never; likewise OutEq_v |
| Counts.CouplingCounts | code/final_construct.java:135-139 | ArcFrom_i_j and ArcTo_i_j each occur once per occurrence of the arc (i, j) |
| Counts.BoundCounts | code/final_construct.java:145-149 | MTZ_LB_v and MTZ_UB_v occur once per occurrence of v, and never for the start |
| Counts.OrderCounts | code/final_construct.java:152-157 | MTZ_i_j occurs once per occurrence of the arc (i, j), and never when j is the start |
| Counts.SampleCounts | code/final_construct.java:160-162 | SampleIfOnPath_v occurs once per occurrence of v |
| Counts.SingleRowCounts | code/final_construct.java:100-176 | FixedStart, MTZ_Start and TimeBudget each occur exactly once in the section |
| Counts.DegreeRowCounts | code/final_construct.java:106-132 | the degree-row counts hold in the whole section |
| Counts.BoundRowCounts | code/final_construct.java:145-149 | the LB/UB counts hold in the whole section |
| Counts.SampleRowCounts | code/final_construct.java:160-162 | the sampling-row count holds in the whole section |
| Counts.ArcRowCounts | code/final_construct.java:135-157 | the coupling and ordering counts of an arc hold in the whole section |
| Semantics.InEqMeaning | code/final_construct.java:109-117 | InEq_v holds iff the flow into v equals y_v |
| Semantics.OutEqMeaning | code/final_construct.java:122-130 | OutEq_v holds iff the flow out of v equals y_v |
| Semantics.DegreeMeaning | code/final_construct.java:106-132 | the degree block holds iff every printed InEq_v and OutEq_v holds |
| Semantics.DegreeFlowMeaning | code/final_construct.java:106-132 | with the indexes of the stored edges, the degree block holds iff flow in = y_v = flow out at every node with neighbours |
| Semantics.StartPinsMeaning | code/final_construct.java:103-143 | FixedStart holds iff y_s = 1, and MTZ_Start holds iff u_s = 1 |
| Semantics.BudgetMeaning | code/final_construct.java:166-175 | TimeBudget holds iff the time spent visiting and sampling is within the budget |
| Semantics.CouplingMeaning | code/final_construct.java:135-139 | the coupling block holds iff every arc's e is at most both endpoints' y |
| Semantics.BoundMeaning | code/final_construct.java:145-149 | the bound block holds iff y_v <= u_v <= N y_v for every non-start node |
| Semantics.OrderMeaning | code/final_construct.java:152-157 | the ordering block holds iff u_i - u_j + N e_ij <= N - 1 for every arc not entering the start |
| Semantics.SampleMeaning | code/final_construct.java:160-162 | the sampling block holds iff x_v <= y_v for every node |
| Semantics.OrderStep | code/final_construct.java:155-156 | a used arc not entering the start puts its head's position at least one past its tail's |
| Semantics.OrderChain | code/final_construct.java:152-157 | along a used walk that never steps onto the start, the position grows by at least one per step |
| Semantics.NoSubtourAvoidsStart | code/final_construct.java:151-157 | every closed walk of used arcs passes through the start node |
| Sections.ChunksAppend | code/final_construct.java:185-188 | a prefix of whole lines wraps independently of what follows |
| Sections.ChunksSound | code/final_construct.java:181-190 | wrapping loses and reorders nothing; every line is non-empty and within the width, and all but the last are full |
| Sections.ModSucc | code/final_construct.java:185 | one more entry moves `cnt % width` on by one, wrapping to 0 |
| Sections.Wrap | code/final_construct.java:181-190 | the counter-based loop with its conditional trailing line prints exactly the wrapped lines |
| Sections.NodeEntriesShape | code/final_construct.java:183-184 | the node block lists x_v y_v for every node in node order |
| Sections.ArcEntriesShape | code/final_construct.java:195-196 | the arc block lists e_i_j for every arc in arc order |
| Sections.ArcEntriesDistinct | code/final_construct.java:195-196 | distinct arcs give distinct e entries |
| Sections.GeneralEntriesCount | code/final_construct.java:209-211 | u_v is listed once per occurrence of v and never for the start |
| Sections.GeneralEntriesMembers | code/final_construct.java:209-211 | every General entry is the u of a non-start node, and each such u is present |
| Sections.ListVariables | code/final_construct.java:179-218 | the three blocks are wrapped at 10, 10 and 16 entries per line |
| Sections.ListedSound | code/final_construct.java:179-218 | each block's lines hold exactly its entries in order, non-empty and within 10 or 16 entries |
| Pipeline.ReadNodes | code/final_construct.java:31-39 | the reading loop yields the node list in file order and the reward map |
| Pipeline.NodeIdsShape | code/final_construct.java:35-37 | the node list has one identifier per record, in file order, repeats kept |
| Pipeline.RewardKeys | code/final_construct.java:37-38 | exactly the nodes have a reward |
| Pipeline.RewardIsLastRecord | code/final_construct.java:38 | a node's reward is that of the last record with its identifier |
| Pipeline.StoredEdges | code/final_construct.java:50-62 | the stored edges are canonical and have node endpoints |
| Pipeline.Build | code/final_construct.java:41-218 | the stages in source order: the start check first, then edges, arcs, objective, constraints and variable lists |
| Pipeline.FailsOnlyForMissingStart | code/final_construct.java:44-47 | the run fails iff the start is not a node, with an error naming it, and otherwise yields a model for that start; no model exists on failure |
| Guarantees.ModelRows | code/final_construct.java:100-176 | a successful model's rows are the section built from the stored edges' arcs and indexes |
| Guarantees.ArcRowsOnce | code/final_construct.java:135-157 | each arc has exactly one ArcFrom, one ArcTo and, unless it enters the start, one MTZ row; a non-arc pair has none |
| Guarantees.DegreeRowsPresent | code/final_construct.java:106-132 | InEq_v is printed, once per occurrence of v, iff some arc enters v; OutEq_v iff some arc leaves it |
| Guarantees.SatisfiesBlocks | code/final_construct.java:100-176 | the section holds iff each of its eight blocks holds |
| Guarantees.SectionBlocks | code/final_construct.java:100-176 | the section holds iff the pins, the five row blocks and the budget hold |
| Guarantees.SectionMeaning | code/final_construct.java:100-176 | the section holds iff start pins, balanced flow, coupling, bounds, ordering, sampling and budget all hold |
| Guarantees.ModelMeaning | code/final_construct.java:100-176 | the same characterisation for the model built from the inputs |
| Guarantees.NoSubtours | code/final_construct.java:141-157 | in a feasible assignment of a generated model, every closed walk of used arcs passes through the start |
| Guarantees.VariablesListed | code/final_construct.java:179-218 | Binary lists x_v y_v in node order and each e_i_j once in arc order; General lists u_v exactly for the non-start nodes; every line is non-empty and within its width |
| EdgeKey.Key | code/final_construct.java:61 | the string `i + "\|" + j`; its read-back is stated by `KeyRoundTrip` and `DecodeThree` |
| EdgeKey.JavaSplit | code/final_construct.java:75 | `split("\\|")`: the whole string without a bar, otherwise the fields with trailing empty ones dropped |
| EdgeKey.DecodeKey | code/final_construct.java:75-76 | fields 0 and 1 of the split key, or none when there are fewer than two; stated by `KeyRoundTrip` and `DecodeThree` |
| EdgeKey.SplitBar | code/final_construct.java:75 | splitting always yields at least one field |
| EdgeKey.DecodeThree | code/final_construct.java:75-76 | a key with three bar-free fields reads back as its first two |
| EdgeKey.KeyRoundTrip | code/final_construct.java:61-76 | for identifiers without a bar, reading the key back gives the stored edge |
| EdgeKey.StoredHiNonEmpty | code/final_construct.java:59-60 | a stored edge's second identifier is never empty |
| EdgeKey.KeyInjective | code/final_construct.java:61 | for stored edges without bars, two keys are equal iff the edges are, so the key set drops exactly the repeated edges |
| EdgeKey.KeySet | code/final_construct.java:50-61 | the string set as written: each accepted record adds its key unless present; equal to `StoredKeys` of the stored pairs by `KeySetIsStoredKeys` |
| EdgeKey.KeySetIsStoredKeys | code/final_construct.java:50-61 | the source's key set is the keys of the stored pairs, each once, in order of first occurrence |
| EdgeKey.ArcsViaKeys | code/final_construct.java:74-80 | the expansion loop over the keys as written: two arcs per key, or a failure where a key has fewer than two fields or a field that is not a node (the null `get` at line 79) |
| EdgeKey.KeysAgreeWithoutBars | code/final_construct.java:74-80 | for canonical edges without bars, reading their keys never throws and gives the pair-based arcs |
| EdgeKey.KeyReadingAgrees | code/final_construct.java:50-80 | when no node identifier holds a bar, the source's key set read back gives exactly `ArcsOf` of the stored pairs |
| EdgeKey.BarInIdentifierMisreads | code/final_construct.java:61-80 | the edge between `1\|2` and `3` is read back as the edge from `1` to `2`; the run throws unless `1` and `2` are nodes, and otherwise writes the wrong arcs |
| EdgeKey.BarKeysMerge | code/final_construct.java:61-80 | the distinct edges (`a\|b`, `c`) and (`a`, `b\|c`) share the one key `a\|b\|c`, stored once and expanded into two arcs between `a` and `b`, where the pairs give four arcs |
| Lp.VarText | code/final_construct.java:94-211 | how a variable is printed; stated by `VarTextInjective` and `UnderscoreNamesCollide` |
| Lp.NameText | code/final_construct.java:103-166 | how a row label is printed; stated by `UnderscoreNamesCollide` and `OrderLabelCollides` |
| Lp.VarTextInjective | code/final_construct.java:94-211 | while no identifier holds `_`, two variables print alike iff they are equal |
| Lp.UnderscoreNamesCollide | code/final_construct.java:137-155 | the distinct arcs (`1`, `2_3`) and (`1_2`, `3`) both print as `e1_2_3`, and their ArcFrom, ArcTo and MTZ labels print alike |
| Lp.OrderLabelCollides | code/final_construct.java:147-155 | the ordering label of the arc (`LB`, `5`) prints as the bound label `MTZ_LB_5` of node `5` |
| Isolation.LoneNodeVisitable | code/final_construct.java:105-131 | as written, a node without neighbours can be visited and sampled by a feasible assignment |
| Isolation.ClosedDegreeRows | code/final_construct.java:105 | the corrected degree block, with both rows printed for every node; stated by the next two rows |
| Isolation.ClosedDegreeRowsExcludeLoneNodes | code/final_construct.java:105-131 | with both degree rows always printed, a node lacking in- or out-neighbours is never visited |
| Isolation.ClosedAgreesWhenConnected | code/final_construct.java:105-131 | the corrected and as-written degree rows coincide when every node has neighbours both ways |

## Left out

- File reading with `Scanner` and the hard-coded paths (lines 12-15, 30-40, 51-55): input is given as parsed node records and adjacency field lists. Trimming, blank-line skipping and the `,\s*` field split are not modelled.
- `Double.parseDouble` and the malformed node line without a second field (line 36), which throws from the Java runtime: rewards arrive already parsed.
- Writing with `PrintWriter`, the header comment line, the section keywords and the console summary (lines 84-88, 100, 179, 205, 220-226): the model file is represented structurally by `Pipeline.LpModel`.
- Character-level rendering of rows (`printf` formats, the `first` flags that place ` +`, Java's rendering of doubles): rows are `Lp.Row` values with named terms. Coefficients are `real`s, with no floating-point rounding.
- Java strings compare UTF-16 code units. `Ids.LexLe` compares Dafny characters, which agree with code units for characters of the Basic Multilingual Plane.
- Sections.Wrap: the counter `cnt` is an unbounded integer. The source's `int` would wrap only after 2^31 entries.
- Sections.Wrap: the test `line.length() > 2` is modelled as "the current line holds an entry". This is equivalent because every entry appends non-empty text.
- Pipeline.Build: node records arrive all at once rather than line by line. Nothing is written before the start check in either version, so the early exit at lines 45-47 is the whole failure path.
- Sections.ArcEntriesDistinct: distinct arcs give distinct structural entries `Lp.E`, but not distinct printed names once an identifier holds `_` (`Lp.UnderscoreNamesCollide`); the `Binary` section can then list one name twice.
- Guarantees.VariablesListed: "each e_i_j once" holds for the structural entries only, not for their printed text when identifiers hold `_`.
- Guarantees.ArcRowsOnce: counts the structural labels `Lp.Name`; the printed labels ArcFrom, ArcTo and MTZ of different arcs coincide when identifiers hold `_`, and a node named `LB` or `UB` makes an ordering label print as a bound label (`Lp.OrderLabelCollides`).
- Counts.CouplingCounts, Counts.OrderCounts, Counts.BoundCounts: like `Guarantees.ArcRowsOnce`, they count structural labels, not printed text.
- Semantics: only linear feasibility is modelled. `Lp.Assignment` gives every variable any real value, so neither integrality of the `Binary` and `General` variables nor the LP format's default bounds (every variable at least 0, `Binary` variables within 0 and 1) is modelled; the solver's optimisation is not part of this model either. The meaning lemmas therefore characterise the printed rows alone.

## Findings

| source | as written | input that shows it | evidently intended | confidence | as-written member | corrected member |
|---|---|---|---|---|---|---|
| code/final_construct.java:61-80 | an edge is stored as the string `i + "\|" + j` and read back with `split("\\|")`, taking fields 0 and 1 | nodes `1\|2` and `3` with an adjacency line joining them: the key `1\|2\|3` reads back as `1` and `2`, so `outNbr.get("1")` at line 79 is null and the run throws, or, if `1` and `2` are nodes, the wrong arcs are written; also (`a\|b`, `c`) and (`a`, `b\|c`) share the key `a\|b\|c`, which is stored once and expanded into the arcs between `a` and `b` only (`EdgeKey.BarKeysMerge`) | the arcs (`1\|2`, `3`) and (`3`, `1\|2`) | not executed; certain for identifiers containing a bar, which node files rarely have | EdgeKey.BarInIdentifierMisreads | Arcs.ArcsShape |
| code/final_construct.java:137-196 | variables and row labels are printed as a prefix and the identifiers joined by `_` | nodes `1`, `2_3`, `1_2`, `3` with the adjacencies (`1`, `2_3`) and (`1_2`, `3`): two distinct arcs both print as `e1_2_3`, listed twice under `Binary`, with duplicated ArcFrom, ArcTo and MTZ labels | one variable and one label per arc | not executed; certain for identifiers containing `_` | Lp.UnderscoreNamesCollide | Sections.ArcEntriesDistinct |
| code/final_construct.java:105-131 | InEq_v and OutEq_v are printed only when in(v) or out(v) is non-empty | nodes `57` (start) and `9`, no adjacency lines: y_9 = x_9 = 1 satisfies every row, so node 9's reward is collected with no arc to it | in(v) = y_v = out(v) for every node (the comment at line 105), forcing y_v = 0 for a node without neighbours | not executed; high for the model as written, though the effect depends on the input having such nodes | Isolation.LoneNodeVisitable | Isolation.ClosedDegreeRowsExcludeLoneNodes |

The model of `Build` follows the source: it uses the pair-based arcs, with
`EdgeKey.KeyReadingAgrees` showing that they agree with the source's
key-based reading whenever node identifiers hold no bar. It also emits the degree rows as
the source does. The corrected degree block `Isolation.ClosedDegreeRows`
is kept beside it, and `Isolation.ClosedAgreesWhenConnected` shows that
the two coincide on graphs where every node has neighbours. Rows and
variables are kept as structured values (`Lp.Row`, `Lp.Var`), which are
distinct for distinct arcs (`Sections.ArcEntriesDistinct`). Printed
variable names are unambiguous while identifiers hold no `_`
(`Lp.VarTextInjective`). Printed row labels are not unambiguous under that
condition alone: a node named `LB` or `UB` still makes an ordering label
print as a bound label (`Lp.OrderLabelCollides`).
