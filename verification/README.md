# A verified model of intreccio

intreccio is a property-graph database with openCypher queries over an
ordered key-value store, with an optional Raft cluster. This project models
its hard parts in Dafny and proves what they are for.

The layers, bottom up:

- **Values, keys and records.** `Values`, `Floats`, `Lex` (byte order),
  `ValueCodec`, `KeyCodec`, `Varint`, `RecordCodec` and `RecordReader`: the
  order-preserving index encoding, the keys of every table and the record
  format. A float64 is its bit pattern (section 3.4 of IEEE 754-2008);
  int64-to-float64 conversion is defined on integers with rounding to
  nearest, ties to even (section 4.3.1).
- **Storage.** `KeyScan` (ordered scans) and `BoltOverlay`, `BoltTxn` (the
  bbolt adapter: buffered writes, the merging iterator, commit).
- **Graph store.** `GraphStore` has one table per key tag and the invariant
  `Consistent`: every label, property, owner, adjacency and relationship
  index entry exists exactly when the records and the registries imply it.
  `GraphTxn`, `NodeCrud`, `NodeLabels`, `NodeUpdates`, `EdgeCrud` and
  `Indexing` are the operations, `GraphEffects` says what each command does,
  and `GraphRun` is every run of them.
- **Access paths.** `Compare` (query comparison and equality probes),
  `IndexAccess` (equality lookups), `AdjacencyScan`, `RangeBands` and
  `RangeScan` (range scans and their cursor).
- **Graph algorithms.** `Adjacency`, `Walks`, `ShortestPath` and `BfsSearch`
  (bidirectional breadth-first search), `Trails` (variable-length expansion).
- **Execution and planning.** `Operators`, `ExpandOps` (pull operators),
  `IntArith` (checked integers), `PlanRows`, `Chain`, `Anchors`,
  `Predicates`, `MatchPlan`, `PlanMeaning`, `Planning`, `AccessPaths`,
  `Lookups` and `PlanRun` (match plans, what they mean, how one is chosen and
  what its lookups return).
- **Cluster.** `WriteSet` (recorded write-sets) and `Replication` (the
  leader's write path over an abstract replicated log).

Code that changes state step by step is modelled by classes and methods with
loops, proved against specification functions; what the source promises is
then proved about those functions. `Consistent` stores are the starting point
of the access-path and planning results, and `GraphRun` shows that every run
of commands reaches only such stores.

## Results that differ from what the source says

- `SetProperty` with a null value writes the index entry before it looks at
  the null (internal/graph/crud.go:115-120). `NodeCrud.SetProperty` proves that
  the store stays consistent exactly when the value is not null or no label
  of the node is indexed on the key, and `NodeCrud.StrayEntry` that a stray
  entry breaks the invariant. `GraphRun.Execute` carries the condition to
  every command.
- The node and edge counters wrap at 2^64 - 1. `NodeLabels.CreateNode` and
  `EdgeCrud.CreateEdge` prove that the invariant survives exactly when the
  counter is below that.
- `DropIndexEntries` by itself leaves the store consistent exactly when no
  constraint is backed by the index; the statement that drops an index checks
  this first.
- A unique constraint is about canonical values. Two values share an owner key
  exactly when a query considers them equal and they are not an integer and a
  float of which the integer converts inexactly (`Compare.SharedKeyExact`).
  Below 2^53 every integer converts exactly, beyond it some do not:
  2^53 + 1 and the float 2^53 are equal for a query and have different keys
  (`Compare.SharedKeyBeyondRange`). `GraphRun.UniqueExact` says the same of
  stores: of two values a query considers equal, both can be held under a
  constraint exactly when they are such a pair.
- A range scan without any bound visits numbers only, so it covers its
  predicate exactly when it has a bound or a prefix, as every planned range
  scan has (`RangeBands.UnboundedMissesStrings`).
- A cluster write is staged and then proposed without looking at the log or
  the term again. `Replication.RunExact` proves that a run keeps the logs
  serial exactly when each proposal was staged on the data of the log that it
  extends, and `Replication.RunIsSerial` that the stores of such a run are
  serial executions. A term check would be enough
  (`Replication.InTermIsEnough`); `Replication.LostUpdate` is a run that loses
  an update without one.
- An undirected trail is returned once for each way its self-loops can be
  read, so twice per self-loop (`Trails.UndirectedDoubles`).

## Model

| member | source | states |
|---|---|---|
| `Adjacency.NeighborsCount` | internal/graph/shortest.go:207-235 | the neighbour list of a node holds every stored edge exactly as often as type scans and directions return it, so a self-loop twice when both directions are followed |
| `Adjacency.NeighborsAreSteps` | internal/graph/shortest.go:207-235 | an edge is listed at a node exactly when it can be stepped along from there in an allowed direction and type, and leads to one other end |
| `Adjacency.NeighborsOnce` | internal/graph/shortest.go:207-235 | with distinct types only a self-loop can be listed twice at a node |
| `Adjacency.ScansExact` | internal/graph/shortest.go:207-235 | without types every edge is scanned once, with types as often as its type or 0 is named |
| `Adjacency.StepExact` | internal/graph/shortest.go:207-235 | one hop goes along a stored edge, in an allowed direction, of a type the pattern names if it names any |
| `Walks.WithinLevel` | internal/graph/shortest.go:96-144 | every node that a walk of at most `level` steps reaches has been visited, at a depth no greater than the walk's length |
| `Walks.Exhausted` | internal/graph/shortest.go:63-92 | a side whose frontier is empty has visited every node that any walk from its start reaches |
| `Walks.WalksToSound` | internal/graph/shortest.go:167-184 | every path read off the predecessor tables is a walk from the start to the node, as long as the node is deep |
| `Walks.WalksToComplete` | internal/graph/shortest.go:167-184 | every walk to a node of exactly its depth is read off the predecessor tables |
| `Walks.WalksToOnce` | internal/graph/shortest.go:167-184 | no walk is listed twice |
| `Walks.WalksToOne` | internal/graph/shortest.go:167-184 | asked for one walk, the tables give exactly one |
| `Walks.ReversedWalk` | internal/graph/shortest.go:187-197 | a walk read backwards is a walk of the reversed directions |
| `ShortestPath.NextLayerComplete` | internal/graph/shortest.go:96-144 | expanding a whole frontier takes a side that is complete up to its level to one complete up to the next level, with every shortest predecessor recorded |
| `ShortestPath.RelaxOnce` | internal/graph/shortest.go:96-144 | no predecessor is recorded twice, provided the neighbour list does not repeat it |
| `ShortestPath.ApartMeansLonger` | internal/graph/shortest.go:63-92 | while the two sides share no node, every walk between the ends is longer than the two levels together |
| `ShortestPath.DryMeansNone` | internal/graph/shortest.go:63-92 | if one side runs dry before they meet there is no walk at all |
| `ShortestPath.CommonNodeIsOnLastLayers` | internal/graph/shortest.go:96-144 | when the sides have just met, common nodes lie on the last layer of both |
| `ShortestPath.AfterLayer` | internal/graph/shortest.go:96-144 | after a layer the sides are either still apart or have just met, and the nearest meeting nodes are exactly the common ones |
| `ShortestPath.ConcatJoins` | internal/graph/shortest.go:187-197 | joining a forward and a backward walk at a node gives a walk between the ends |
| `ShortestPath.ConcatSplit` | internal/graph/shortest.go:187-197 | every walk is the join of its two halves |
| `ShortestPath.JoinedExactly` | internal/graph/shortest.go:148-163 | the joined paths are exactly the walks whose length is the sum of the two levels |
| `ShortestPath.JoinedOnce` | internal/graph/shortest.go:148-163 | no path is joined twice |
| `ShortestPath.ShortestVisitsOnce` | internal/graph/shortest.go:63-92 | a shortest path visits no node twice |
| `ShortestPath.ShortestIsTrail` | internal/graph/shortest.go:63-92 | a shortest path uses no relationship twice |
| `BfsSearch.BfsSide.constructor` | internal/graph/shortest.go:47-55 | a new side is complete up to level 0 |
| `BfsSearch.BfsSide.Visit` | internal/graph/shortest.go:96-144 | one edge of the layer is relaxed: a new node is queued, and a predecessor is added for a node of the new layer |
| `BfsSearch.BfsSide.VisitNode` | internal/graph/shortest.go:96-144 | all edges at one frontier node are relaxed in order |
| `BfsSearch.BfsSide.Expand` | internal/graph/shortest.go:96-144 | expands the frontier by one layer and returns the nodes of the new layer that the other side has seen |
| `BfsSearch.BfsSide.ListWalks` | internal/graph/shortest.go:167-184 | returns the walks that the predecessor tables spell out |
| `BfsSearch.KeepNearest` | internal/graph/shortest.go:130-144 | keeps exactly the meeting nodes at the least depth on the other side |
| `BfsSearch.ConcatPaths` | internal/graph/shortest.go:187-197 | the loop that joins two halves builds their concatenation |
| `BfsSearch.JoinPaths` | internal/graph/shortest.go:148-163 | with All every walk through a meeting node, otherwise one, each once |
| `BfsSearch.Advance` | internal/graph/shortest.go:63-92 | one round of the search keeps both sides complete and apart, or makes them meet |
| `BfsSearch.Search` | internal/graph/shortest.go:63-92 | the rounds end: with a meeting, when a side is dry or at the hop limit |
| `BfsSearch.ShortestPaths` | internal/graph/shortest.go:63-92 | returns exactly the paths of minimum length within the hop limit that respect direction and types, each once (one of them without All), and nothing when there are none |
| `Trails.Enumerate` | internal/exec/expand.go:282-336 | each list of relationships from the start comes back exactly as often as its weight says when its length is in range (1 and 100 stand for absent bounds), and never otherwise |
| `Trails.CountedInRange` | internal/exec/expand.go:283-290 | absent bounds stand for 1 and 100 |
| `Trails.GrowElement` | internal/exec/expand.go:308-324 | one frontier element grows by each neighbour whose edge it has not used |
| `Trails.GrowLevel` | internal/exec/expand.go:302-334 | one round builds the next frontier from every frontier element, and collects hits from the minimum length on |
| `Trails.WeightIsTrail` | internal/exec/expand.go:279-281 | a list of relationships has positive weight exactly when it is a trail from the start: a walk along steps that uses no relationship twice |
| `Trails.EndIsEnd` | internal/exec/expand.go:282-336 | a trail from a node leads to one node |
| `Trails.DirectedOnce` | internal/exec/expand.go:343-379 | with one direction and distinct types every weight is at most one |
| `Trails.UndirectedDoubles` | internal/exec/expand.go:343-379 | without a direction each self-loop on a trail doubles how often the trail is returned |
| `Trails.NextLevel` | internal/exec/expand.go:302-334 | the next frontier holds the trails one longer, each as often as its weight says |
| `Trails.NothingLonger` | internal/exec/expand.go:330-333 | once a round finds nothing, there are no longer trails, so stopping early loses none |
| `Trails.ReturnsTrails` | internal/exec/expand.go:279-281 | a hit is returned exactly when it is a trail in range to that node |
| `Trails.ReturnsOnce` | internal/exec/expand.go:279-281 | a directed pattern with distinct types returns no trail twice |
| `Floats.RankOrders` | internal/storage/codec/value.go:52-87 | bit patterns of floats order as the numbers they stand for, with the two zeros equal |
| `Floats.OfIntNearest` | internal/graph/values.go:59-84 | converting an integer to a float gives a nearest float, the even one on a tie (section 4.3.1 of IEEE 754-2008) |
| `Floats.OfIntExact` | internal/graph/values.go:94-120 | integers up to 2^53 in magnitude convert exactly |
| `Floats.OfIntGrows` | internal/exec/eval.go:644-671 | conversion keeps the order of integers |
| `Floats.OfIntSmall` | internal/graph/traversal.go:398-441 | below 2^53 comparing a converted integer with a number is comparing the integer |
| `ValueCodec.DecodeRoundTrip` | internal/storage/codec/value.go:92-130 | decoding an encoded value from any longer buffer gives the value and exactly the bytes it took |
| `ValueCodec.PrefixFree` | internal/storage/codec/value.go:52-87 | no encoding is a prefix of another one's extension: equal buffers hold equal values and equal rests |
| `ValueCodec.EncodeOrder` | internal/storage/codec/value.go:52-87 | byte order of encodings is the logical order within a type, floats by totalOrder (section 5.10 of IEEE 754-2008), and the band order across types, whatever follows |
| `ValueCodec.StringPrefixExact` | internal/storage/codec/value.go:40-43 | a string starts with s exactly when its encoding starts with the string prefix of s |
| `ValueCodec.AppendOrderedString` | internal/storage/codec/value.go:135-144 | the escaping loop appends the escaped string and its terminator |
| `ValueCodec.DecodeOrderedString` | internal/storage/codec/value.go:148-171 | the decoding loop returns the string and the bytes used, or which error stops it |
| `ValueCodec.IntBitsOrder` | internal/storage/codec/value.go:60-66 | flipping the sign bit orders integers as unsigned numbers and can be undone |
| `ValueCodec.FloatBitsOrder` | internal/storage/codec/value.go:67-76 | the bit trick on floats orders them totally and can be undone |
| `Lex.LessExact` | internal/storage/codec/value.go:52-87 | byte order is decided by the first byte that differs, or by one string ending first |
| `Compare.IntegersCompare` | internal/exec/eval.go:646-651 | integers compare as numbers under all four comparisons |
| `Compare.NumbersCompare` | internal/exec/eval.go:646-660 | beside a float, numbers compare by value with integers converted |
| `Compare.StringsCompare` | internal/exec/eval.go:661-664 | strings compare by byte order |
| `Compare.BooleansCompare` | internal/exec/eval.go:665-668 | false comes before true |
| `Compare.ComparesExactly` | internal/exec/eval.go:607-672 | of two comparable values exactly one of less, equal and greater holds, and the inclusive comparisons add equality; null, NaN and values of different kinds compare with nothing |
| `Compare.LessTransitive` | internal/exec/eval.go:644-672 | less than is transitive, across integers and floats too |
| `Compare.ProbesExact` | internal/graph/values.go:94-120 | the probes of a value are exactly the stored values that a query considers equal to it |
| `Compare.ProbesOnce` | internal/graph/values.go:94-120 | no probe is visited twice |
| `Compare.SharedKeyMeansEqual` | internal/graph/unique.go:83-95 | values with the same owner key are equal for queries |
| `Compare.MixedKeys` | internal/graph/unique.go:83-95 | an integer and a float that a query considers equal share an owner key exactly when the integer converts exactly |
| `Compare.SharedKeyExact` | internal/graph/unique.go:79-95 | any two values share an owner key exactly when a query considers them equal and no integer of a mixed pair converts inexactly |
| `Compare.SharedKeyIsEquality` | internal/graph/unique.go:79-95 | so as soon as one value is below 2^53 in magnitude, they share a key exactly when a query considers them equal |
| `Compare.SharedKeyBeyondRange` | internal/graph/unique.go:79-95 | beyond 2^53 it fails: an integer and a float that a query considers equal have different owner keys |
| `KeyCodec.KeyInjective` | internal/storage/codec/key.go:48-265 | entries with the same bytes are the same entry, across all tables |
| `KeyCodec.OutPrefixExact` | internal/storage/codec/key.go:70-72 | the outgoing prefixes select exactly the edges of that source, and of that type |
| `KeyCodec.InPrefixExact` | internal/storage/codec/key.go:78-80 | the incoming prefixes select exactly the edges of that destination, and of that type |
| `KeyCodec.LabelPrefixExact` | internal/storage/codec/key.go:86-88 | the label prefix selects exactly the entries of that label |
| `KeyCodec.PropPrefixExact` | internal/storage/codec/key.go:176-182 | the equality prefix selects exactly the index entries with that label, key and value |
| `KeyCodec.RelPropPrefixExact` | internal/storage/codec/key.go:119-125 | the relationship equality prefix selects exactly the entries with that type, key and value |
| `KeyCodec.IndexPrefixesExact` | internal/graph/unique.go:240-255 | the prefixes deleted with an index, a relationship index or a constraint select exactly its entries |
| `KeyCodec.BandPrefixExact` | internal/storage/codec/key.go:236-242 | a band prefix selects exactly the entries whose value is of that type, a string prefix those whose string starts with it |
| `KeyCodec.LabelKeyOrder` | internal/storage/codec/key.go:86-88 | within a label, keys sort by node id |
| `KeyCodec.PropKeyFrom` | internal/storage/codec/key.go:176-182 | an index entry sorts at or after the start of a value exactly when its value is not before it |
| `KeyCodec.PropKeyOrder` | internal/storage/codec/key.go:94-104 | within an index, keys sort by value and then by node id |
| `KeyScan.ScanFrom` | internal/storage/store.go:54-59 | an ordered scan returns, in byte order, exactly the keys under the prefix that are not before the start |
| `KeyScan.SortedUnique` | internal/storage/store.go:54-59 | a set of keys has one ordered enumeration |
| `IndexAccess.EncodableExact` | internal/storage/codec/key.go:48-265 | every key of a consistent store can be encoded exactly when its label, type and key ids have 32 bits |
| `IndexAccess.ParsePropKeyOf` | internal/storage/codec/key.go:245-257 | a property index key parses back to its value and node |
| `IndexAccess.ParseRelPropKeyOf` | internal/storage/codec/key.go:136-148 | a relationship index key parses back to its value and edge |
| `IndexAccess.ParseLabelKeyOf` | internal/storage/codec/key.go:209-216 | a label key parses back to its label and node |
| `IndexAccess.ParseEdgeKeyOf` | internal/storage/codec/key.go:151-156 | an edge record key parses back to its id |
| `AdjacencyScan.ParseOutKeyOf` | internal/storage/codec/key.go:185-194 | an outgoing key parses back to its edge |
| `AdjacencyScan.ParseInKeyOf` | internal/storage/codec/key.go:197-206 | an incoming key parses back to its edge |
| `AdjacencyScan.OutEdges` | internal/graph/traversal.go:47-63 | the prefix scan returns exactly the edges out of the node of the type (0 means any), each once |
| `AdjacencyScan.InEdges` | internal/graph/traversal.go:67-83 | the prefix scan returns exactly the edges into the node of the type (0 means any), each once |
| `AdjacencyScan.SameNeighbours` | internal/graph/traversal.go:47-83 | what the byte scans return is what the traversal results are stated about |
| `IndexAccess.ProbeKeys` | internal/graph/traversal.go:131-142 | the stored keys under an equality prefix are exactly those of the entries with that value |
| `IndexAccess.IndexMatches` | internal/graph/traversal.go:131-142 | one probe returns exactly the nodes with an entry of that value, each once, and never meets a malformed key |
| `IndexAccess.NodesByLabel` | internal/graph/traversal.go:31-43 | the labelled nodes in ascending id order |
| `IndexAccess.ProbeIndex` | internal/graph/traversal.go:95-109 | probing the index and sorting returns, ascending and once each, exactly the labelled nodes whose value a query considers equal |
| `IndexAccess.FilterByLabel` | internal/graph/traversal.go:111-127 | so does the label scan with a filter |
| `IndexAccess.NodesByProperty` | internal/graph/traversal.go:88-128 | whichever path is taken the result is the ascending list of matching nodes |
| `IndexAccess.ProbesFindMatches` | internal/graph/traversal.go:88-128 | on a consistent store a node matches exactly when one of the probes has an entry for it |
| `IndexAccess.ScanEdgesOfType` | internal/graph/relindex.go:132-160 | every edge of the type, ascending |
| `IndexAccess.EdgesByScan` | internal/graph/relindex.go:119-128 | the scan returns, ascending, exactly the edges of the type with an equal property |
| `IndexAccess.ProbeRelIndex` | internal/graph/relindex.go:95-115 | so do the probes of the relationship index |
| `IndexAccess.EdgesByProperty` | internal/graph/relindex.go:82-116 | whichever path is taken, and nothing for null |
| `RangeBands.BandsCover` | internal/graph/traversal.go:302-353 | every value the comparison accepts lies in one of the segments, at or after its start and before its stop; no segments means no accepted value |
| `RangeBands.AcceptsExact` | internal/exec/exec.go:385-428 | a range accepts the strings that start with its prefix, or the values above its lower and below its upper bound, those equal to a bound exactly when it is inclusive |
| `RangeBands.UnboundedMissesStrings` | internal/graph/traversal.go:344-352 | without any bound only the number bands are scanned, so the coverage needs at least one bound |
| `RangeBands.NumberCovered` | internal/graph/traversal.go:378-395 | integers and floats accepted by mixed integer and float bounds are covered, with -0.0, infinities and integers beyond 2^53 |
| `RangeBands.IntStart` | internal/graph/traversal.go:398-418 | an integer above a bound is not before the integer start |
| `RangeBands.IntStop` | internal/graph/traversal.go:421-441 | an integer below a bound is not after the integer stop |
| `RangeBands.FloatStartRank` | internal/graph/traversal.go:447-466 | a float above a bound is not before the float start, widened where the bound was rounded |
| `RangeBands.FloatStopRank` | internal/graph/traversal.go:467-484 | a float below a bound is not stopped |
| `RangeBands.TextCovered` | internal/graph/traversal.go:324-341 | strings between string bounds are covered |
| `RangeBands.StopIsFinal` | internal/graph/traversal.go:242-265 | once a value stops a segment no later value of it is accepted |
| `RangeScan.SegKey` | internal/graph/traversal.go:283-293 | a key is in the scan of a segment exactly when its value is in the segment from the start on |
| `RangeScan.SegmentVisits` | internal/graph/traversal.go:242-265 | one segment yields distinct nodes of its entries, and every covered one |
| `RangeScan.NodeCursor.constructor` | internal/graph/traversal.go:283-293 | a new cursor has everything its segments yield still to come |
| `RangeScan.NodeCursor.Next` | internal/graph/traversal.go:242-265 | returns the first node still to come and leaves the rest, or closes the cursor |
| `RangeScan.ScanPropertyRange` | internal/graph/traversal.go:283-293 | the cursor visits every node whose value the range accepts, none twice and only indexed ones; it is null exactly when no segment is planned |
| `RangeScan.RangeThenFilter` | internal/exec/exec.go:385-428 | range scan and filter select exactly the labelled nodes whose value the range accepts, each once |
| `RangeScan.LabelThenFilter` | internal/exec/exec.go:510-556 | label scan and filter select exactly the same nodes |
| `RangeScan.SameSelection` | internal/graph/traversal.go:277-282 | so the two plans return the same nodes the same number of times |
| `NodeCrud.StoredOk` | internal/storage/codec/record.go:38-49 | a stored record lists the same labels in ascending order |
| `GraphStore.EmptyConsistent` | internal/graph/crud.go:20-50 | the empty store satisfies the index invariant |
| `GraphStore.Determined` | internal/graph/unique.go:1-19 | all index tables are a function of the records and the registries |
| `GraphStore.PutEntryAgrees` | internal/graph/unique.go:21-41 | putting an entry for a new fact keeps index and owner keys in agreement with the facts |
| `GraphStore.DelEntryAgrees` | internal/graph/unique.go:45-77 | deleting an entry for a removed fact keeps them in agreement |
| `GraphStore.NoClash` | internal/graph/unique.go:100-122 | facts in agreement with owner keys never put one value on two nodes |
| `GraphTxn.NextCounter` | internal/catalog/catalog.go:170-190 | hands out the stored counter plus one, wrapping at 2^64, and stores it |
| `GraphTxn.Intern` | internal/catalog/catalog.go:126-155 | returns the id of a name, making a fresh one only if there is none, or fails exactly when none is left; the dictionaries stay inverse bijections with ids in 1..counter |
| `GraphTxn.IdsDistinct` | internal/catalog/catalog.go:126-166 | two names of a kind never share an id |
| `GraphTxn.ClaimValue` | internal/graph/unique.go:100-122 | claims the owner key, or reports a violation exactly when another node holds it |
| `GraphTxn.PutPropEntry` | internal/graph/unique.go:21-41 | writes the index entry and owner key if the registry asks for them; reports a violation exactly when another node holds the key |
| `GraphTxn.DelPropEntry` | internal/graph/unique.go:45-77 | removes the index entry, and the owner key only when this node holds it |
| `GraphTxn.PutPropsAt` | internal/graph/crud.go:436-448 | enters every property of a node under one label and keeps index and owner keys in agreement, or reports a violation, and then one of them clashes with a fact |
| `GraphTxn.DelPropsAt` | internal/graph/crud.go:451-463 | removes the entry of every property of a node under one label |
| `NodeCrud.SetProperty` | internal/graph/crud.go:97-126 | sets one property and moves its index entries; the store stays consistent exactly when the value is not null or no label of the node is indexed on the key; a violation is reported exactly on a clash |
| `NodeCrud.StrayEntry` | internal/graph/crud.go:115-120 | setting null under an index leaves an entry that no record justifies |
| `NodeLabels.CreateNode` | internal/graph/crud.go:20-50 | creates a node with the next id, which is fresh, exactly the given labels and non-null properties, and all its index entries, none of which clashes; a violation is reported only when the node would clash; the store stays consistent exactly when the counter does not wrap |
| `NodeLabels.InternLabels` | internal/graph/crud.go:20-50 | resolves each label name, keeping each id once |
| `NodeLabels.InternProps` | internal/graph/crud.go:411-424 | resolves each property name and drops nulls |
| `NodeUpdates.AddLabels` | internal/graph/crud.go:212-251 | adds exactly the new labels with their index entries, none of which clashes; a violation is reported only when one would |
| `NodeUpdates.RemoveLabels` | internal/graph/crud.go:255-293 | a label stays exactly when none of the names resolves to it; index entries follow |
| `NodeUpdates.RemoveProperty` | internal/graph/crud.go:184-207 | removes the property and its index entries |
| `NodeUpdates.SetNodeProperties` | internal/graph/crud.go:299-359 | a key given a value has it, a key given null is gone, and a key not given is gone when replacing and stays as it was when merging; a violation is reported exactly when the result clashes |
| `EdgeCrud.CreateEdge` | internal/graph/crud.go:54-93 | creates an edge with the next id, which is fresh, under both adjacency tables and the relationship index; a missing endpoint is an error, and the only one beside running out of ids; the store stays consistent exactly when the counter does not wrap |
| `EdgeCrud.PutEdge` | internal/graph/crud.go:74-92 | writes the record, both adjacency entries and exactly the relationship index entries the registry asks for |
| `EdgeCrud.DeleteEdge` | internal/graph/crud.go:162-179 | removes the edge from the record table, both adjacency tables and the relationship index |
| `EdgeCrud.DeleteNode` | internal/graph/crud.go:393-409 | removes the node with all its entries, or refuses exactly when an edge touches it |
| `EdgeCrud.DetachDeleteNode` | internal/graph/crud.go:363-388 | removes exactly the node and the edges that touch it, self-loops included, and never refuses |
| `EdgeCrud.PutRelPropEntry` | internal/graph/relindex.go:14-27 | writes a relationship index entry exactly when the registry and the value ask for it |
| `EdgeCrud.DelRelPropEntry` | internal/graph/relindex.go:30-43 | removes a relationship index entry |
| `Indexing.BuildIndex` | internal/graph/unique.go:158-169 | registers the index and enters exactly the facts of the label and key |
| `Indexing.DropIndexEntries` | internal/graph/crud.go:482-487 | removes exactly the entries of the index and unregisters it; the store stays consistent exactly when no constraint is backed by it |
| `Indexing.AddUniqueConstraint` | internal/graph/unique.go:174-195 | builds the backing index and claims every value, or reports a violation exactly when two nodes clash |
| `Indexing.DropUniqueConstraint` | internal/graph/unique.go:199-214 | releases every owner key of the constraint and, if it made the index, the index |
| `Indexing.BuildRelIndex` | internal/graph/relindex.go:48-66 | registers the relationship index and enters exactly the edges of the type with the key |
| `Indexing.DropRelIndexEntries` | internal/graph/relindex.go:70-75 | removes every entry of the relationship index and unregisters it |
| `GraphRun.InternPair` | internal/exec/write.go:345-352 | the pair of exactly the ids of the two names, or an error when ids run out |
| `GraphRun.Define` | internal/exec/write.go:338-421 | a statement that creates an index registers exactly the pair of its label or type and its key |
| `GraphRun.Constrain` | internal/exec/constraint.go:26-60 | a statement that creates a constraint registers exactly the pair of its names with its backing index; it reports a violation only when two nodes clash and succeeds only when none do |
| `GraphRun.Undefine` | internal/exec/write.go:485-519 | a statement that drops one unregisters exactly that pair, and is refused exactly when the index backs a constraint |
| `GraphRun.Execute` | internal/graph/crud.go:20-487 | every command does what it says to records, labels, properties and registries and nothing else; it is refused exactly when a node or an edge it names is missing, a node to delete has an edge or an index to drop backs a constraint, and otherwise only on a clash or when ids run out; a refused one changes nothing; one that commits keeps every index entry in agreement exactly when it sets no null under an indexed key and wraps no counter |
| `GraphEffects.PropsSetOnce` | internal/graph/crud.go:315-334 | what the properties of a node become is determined by what is said about each key |
| `GraphRun.Run` | internal/graph/crud.go:20-487 | every run of commands goes through consistent stores, each the one before or what the next command makes of it; keys can be encoded if those at the start could; node ids and edge ids are each handed out in strictly ascending order, so none twice, names keep their ids and counters never decrease |
| `GraphRun.EmptyEncodable` | internal/storage/codec/key.go:48-265 | the empty store is consistent and its keys can be encoded |
| `GraphRun.OneHolder` | internal/graph/unique.go:79-122 | in a consistent store a constrained pair has a backing index and no two nodes hold one canonical value under it |
| `GraphRun.UniqueHolds` | internal/graph/unique.go:79-122 | in a consistent store no two nodes hold values a query considers equal under a unique constraint, unless an integer of a mixed pair converts inexactly |
| `GraphRun.UniqueWithinRange` | internal/graph/unique.go:79-122 | in particular none do as soon as one of the values is below 2^53 in magnitude |
| `GraphRun.UniqueExact` | internal/graph/unique.go:79-122 | of two values a query considers equal, some consistent store holds both under a unique constraint exactly when they are an integer and a float of which the integer converts inexactly |
| `BoltOverlay.MergeShows` | internal/storage/bolt/bolt.go:200-227 | the merge shows an entry exactly when it is buffered as written, or committed and not buffered |
| `BoltOverlay.MergeSorted` | internal/storage/bolt/bolt.go:200-227 | the merge is in strict key order |
| `BoltOverlay.VisibleExact` | internal/storage/bolt/bolt.go:192-197 | stopping the cursor at the first key outside the prefix loses no key inside it |
| `BoltOverlay.MergeIsOverlay` | internal/storage/bolt/bolt.go:155-171 | merging what is in range of both sources lists exactly the overlaid map in range |
| `BoltTxn.MergeCursor.Settle` | internal/storage/bolt/bolt.go:200-227 | moving to the next visible entry keeps what is still to be shown and skips shadowed and deleted entries |
| `BoltTxn.MergeCursor.Current` | internal/storage/bolt/bolt.go:229-249 | the iterator is valid exactly when something is left, and its key and value are the first of it |
| `BoltTxn.MergeCursor.Next` | internal/storage/bolt/bolt.go:231-241 | drops exactly the first of what is left |
| `BoltTxn.MergeCursor.Close` | internal/storage/bolt/bolt.go:251-254 | a closed iterator shows nothing |
| `BoltTxn.Txn.Get` | internal/storage/bolt/bolt.go:118-130 | returns the value in the overlaid map, or that there is none |
| `BoltTxn.Txn.Set` | internal/storage/bolt/bolt.go:132-143 | the overlaid map gains the entry; refused in a read-only or closed transaction and for the empty key |
| `BoltTxn.Txn.Delete` | internal/storage/bolt/bolt.go:145-151 | the overlaid map loses the entry; refused in a read-only or closed transaction |
| `BoltTxn.Txn.ScanFrom` | internal/storage/bolt/bolt.go:155-171 | the iterator lists exactly the sorted entries of the map overlaid with the writes made so far, under the prefix from the start on, and does not depend on later writes |
| `BoltTxn.Txn.Scan` | internal/storage/bolt/bolt.go:153-153 | the same from the prefix itself |
| `BoltTxn.Store.Commit` | internal/storage/bolt/bolt.go:82-99 | applying the buffer key by key produces the overlaid map |
| `BoltTxn.Store.Update` | internal/storage/bolt/bolt.go:74-101 | the data after a successful update is the writes of the function played in order; it fails exactly when a write is refused or the function fails, and then changes nothing |
| `Operators.ProductAt` | internal/exec/exec.go:745-798 | the product lists every left row with every right row, left-major |
| `Operators.Cartesian.constructor` | internal/exec/exec.go:734-743 | a new product has read neither side |
| `Operators.Cartesian.NextLeft` | internal/exec/exec.go:748-787 | takes the next left row without changing what is to come |
| `Operators.Cartesian.Load` | internal/exec/exec.go:757-772 | buffers the whole right side, or fails with it |
| `Operators.Cartesian.Next` | internal/exec/exec.go:745-798 | pulls the product row by row; the right side is not read without a left row, nor a second time |
| `Operators.OuterApply.constructor` | internal/exec/outer.go:31-45 | a new operator has its whole output to come |
| `Operators.OuterApply.Next` | internal/exec/outer.go:47-91 | pulls, per outer row, its inner rows, or one null-extended row when it has none; a plain Apply drops such rows |
| `Operators.OutputInBlocks` | internal/exec/outer.go:47-91 | the whole output is one block per outer row in their order: its inner rows, or one row with the outer values and nulls for the new variables, or nothing in a plain Apply; up to the first inner tree that fails |
| `IntArith.AddChecked` | internal/exec/eval.go:740-746 | the sign test after a wrapped addition reports exactly the overflows |
| `IntArith.SubChecked` | internal/exec/eval.go:706-711 | so does the one after a subtraction |
| `IntArith.MulChecked` | internal/exec/eval.go:712-720 | so does the division test after a product, with MIN * -1 caught by name |
| `IntArith.DivChecked` | internal/exec/eval.go:721-728 | a quotient overflows exactly for MIN / -1 |
| `IntArith.ModChecked` | internal/exec/eval.go:729-733 | a remainder always fits, is smaller than the divisor and has the dividend's sign |
| `IntArith.ArithmeticExact` | internal/exec/eval.go:702-737 | every operator returns the mathematical result when it fits, an overflow exactly when it does not, and fails on a zero divisor |
| `IntArith.NegateExact` | internal/exec/eval.go:749-754 | negation is exact or overflows |
| `IntArith.Accumulator.Take` | internal/exec/aggregate.go:180-191 | adds one value to the sum, skipping null, or fails exactly when the sum leaves the range |
| `IntArith.Sum` | internal/exec/aggregate.go:159-200 | a sum over integers is the exact total when every running prefix fits and fails otherwise |
| `IntArith.OrderMatters` | internal/exec/aggregate.go:159-200 | an example: two orders of the same values, of which one sum fits and the other overflows |
| `Varint.UvarintRoundTrip` | internal/storage/codec/record.go:195-202 | a variable-length integer reads back from any longer buffer |
| `Varint.VarintRoundTrip` | internal/storage/codec/record.go:204-211 | so does a signed one |
| `Varint.ParseUvarint` | internal/storage/codec/record.go:195-202 | whatever is read fits 64 bits and consumes at least a byte |
| `RecordCodec.ValueRoundTrip` | internal/storage/codec/record.go:128-180 | a value of any nesting reads back from any longer buffer, and no count guard rejects it |
| `RecordCodec.OrderedSorted` | internal/storage/codec/record.go:158-166 | map keys are written in byte order |
| `RecordCodec.OrderedIdsAscend` | internal/storage/codec/record.go:109-114 | property keys are written in ascending order |
| `RecordCodec.DecodePropsRoundTrip` | internal/storage/codec/record.go:109-126 | a property map reads back |
| `RecordCodec.NodeRoundTrip` | internal/storage/codec/record.go:38-74 | a node record reads back with its labels sorted |
| `RecordCodec.EdgeRoundTrip` | internal/storage/codec/record.go:77-105 | an edge record reads back |
| `RecordReader.Reader.Uvarint` | internal/storage/codec/record.go:195-202 | reads what the bytes left say and moves past it, or fails; never past the end |
| `RecordReader.Reader.Varint` | internal/storage/codec/record.go:204-211 | the same for a signed integer |
| `RecordReader.Reader.Byte` | internal/storage/codec/record.go:213-220 | reads one byte, or fails at the end |
| `RecordReader.Reader.Bytes` | internal/storage/codec/record.go:222-229 | reads n bytes, or fails when fewer are left |
| `RecordReader.Reader.Count` | internal/storage/codec/record.go:254-300 | reads a count, refusing one larger than the bytes left |
| `RecordReader.Reader.Value` | internal/storage/codec/record.go:254-332 | on any bytes the recursive reader ends and returns what the format says they hold |
| `RecordReader.Reader.Elems` | internal/storage/codec/record.go:286-301 | the same for the items of a list |
| `RecordReader.Reader.Entries` | internal/storage/codec/record.go:302-328 | the same for the entries of a map, later keys winning |
| `RecordReader.Reader.Props` | internal/storage/codec/record.go:231-252 | the same for a property map, with keys cut to 32 bits |
| `RecordReader.Reader.Labels` | internal/storage/codec/record.go:61-68 | the same for the labels of a node, cut to 32 bits |
| `RecordReader.ReadNode` | internal/storage/codec/record.go:51-74 | reading a node record from any bytes returns what the format says, or an error |
| `RecordReader.ReadEdge` | internal/storage/codec/record.go:86-105 | reading an edge record from any bytes returns what the format says, or an error |
| `WriteSet.RecordTxn.Set` | cluster/record.go:57-60 | records the write and makes it, so the transaction shows what the recorded writes make of its data |
| `WriteSet.RecordTxn.Delete` | cluster/record.go:62-65 | the same for a deletion |
| `WriteSet.RecordTxn.Get` | cluster/record.go:49-49 | reads pass through to the wrapped transaction |
| `WriteSet.WriteRoundTrip` | cluster/record.go:74-92 | an encoded write reads back from any longer buffer |
| `WriteSet.ReplayEncoded` | cluster/record.go:94-129 | replaying encoded writes does what the writes do, and is refused exactly when one of them is |
| `WriteSet.ReplicaFollows` | cluster/record.go:94-129 | a write-set takes any replica with the same data to what the statement made of it |
| `WriteSet.ApplyWriteSet` | cluster/record.go:96-129 | applies exactly what the bytes say, in order, or fails |
| `WriteSet.ApplyOp` | cluster/record.go:103-127 | reads one write and makes it |
| `WriteSet.ReadBytes` | cluster/record.go:131-153 | reads a length and that many bytes, or fails |
| `WriteSet.ApplyEntry` | cluster/fsm.go:43-53 | a committed entry is applied completely or not at all |
| `Replication.InOrderIsSerial` | cluster/node.go:264-267 | if every entry was staged on the replay of the entries before it, replaying the log is running its statements one after another |
| `Replication.StageKeeps` | cluster/node.go:293-306 | a leader that passed its barrier stages on the replay of its whole log |
| `Replication.PrepareKeeps` | cluster/node.go:269-284 | taking the lock, reading the term and the barrier of the term keep the invariant |
| `Replication.ProposeKeeps` | cluster/node.go:312-314 | a proposal keeps the invariant exactly when it was staged on the data of the log it extends |
| `Replication.InTermIsOnTop` | cluster/node.go:312-314 | a proposal in the term of its staging was staged on the data of the log it extends |
| `Replication.ReturnKeeps` | cluster/node.go:312-316 | a write returns only with its whole log applied or its leadership lost |
| `Replication.ElectKeeps` | cluster/node.go:275-284 | a newly elected leader has not passed a barrier of its term |
| `Replication.NextKeeps` | cluster/node.go:268-316 | a step of elections, replication, commits, applies and writes keeps the invariant exactly when it is no proposal on another log than the one it was staged on |
| `Replication.RunExact` | cluster/node.go:268-316 | in a run every log that a leader ever had consists of statements staged one on top of the other exactly when each proposal was staged on the data of the log it extends |
| `Replication.RunIsSerial` | cluster/node.go:268-316 | in every state of such a run each store is the serial execution of its log, and nodes that applied equally much hold equal stores |
| `Replication.InTermIsEnough` | cluster/node.go:268-316 | a run in which each proposal comes in the term of its staging is such a run |
| `Replication.WriteGoesThrough` | cluster/node.go:268-316 | a run in which a write is staged, proposed, committed and applied by the leader and by a follower |
| `Replication.LostUpdate` | cluster/node.go:293-314 | a run that is not: two increments are committed and one is lost |
| `PlanRows.JoiningFlips` | query/plan/plan.go:851-860 | a relationship joins two nodes in as many ways from either end with the direction flipped |
| `PlanRows.ExpandRowCount` | internal/exec/expand.go:73-132 | expanding a row yields each extension as often as the relationship joins its ends, with a bound target checked |
| `PlanRows.RunHopsCount` | query/plan/plan.go:368-374 | after a sequence of expands a row counts as often as the row it extends times the factor of each expand |
| `Chain.HopsFromFit` | query/plan/plan.go:368-374 | expanding rightward then leftward from a bound stretch always expands from bound nodes and ends with the whole chain bound |
| `Chain.HopsFromProduct` | query/plan/plan.go:368-374 | wherever the expands start, they contribute the factors of exactly the other relationships |
| `Anchors.JoinedIsProduct` | query/plan/plan.go:342-352 | a scan that reads no incoming variable is a Cartesian product |
| `Anchors.JoinedIsApply` | query/plan/plan.go:345-349 | a scan that reads the incoming row is an Apply over a product with that row |
| `Anchors.EdgeRowsCount` | internal/exec/relseek.go:85-100 | a relationship seek yields each reading of a relationship once per direction, self-loops twice when undirected |
| `Anchors.ChainCount` | query/plan/plan.go:326-382 | the count of a row of a chain: its input row's, times the leaf's, times the factors of the expands |
| `Predicates.EqualityFlips` | internal/exec/eval.go:554-605 | equality of values of any nesting does not depend on the side |
| `Predicates.EqualityExact` | internal/exec/eval.go:554-605 | values of any nesting are equal exactly when they agree at every place that both have, and unequal exactly when at some place both are known and they disagree in length, keys, kind or scalar |
| `Predicates.EqualsItself` | internal/exec/eval.go:554-605 | a value without null and NaN equals itself |
| `Predicates.ComparisonMeans` | internal/exec/eval.go:607-640 | a comparison is true as the order says, unknown beside null or across kinds, and false beside NaN |
| `Predicates.PrefixMeaning` | internal/exec/eval.go:474-483 | STARTS WITH is true exactly when the rest can be cut off, and unknown unless both are strings |
| `Predicates.BothMeans` | internal/exec/eval.go:515-531 | AND is true when both sides are, false when one is, and else unknown |
| `Predicates.ConjunctsMean` | query/plan/plan.go:663-668 | a row passes a condition exactly when it passes every conjunct |
| `Predicates.AndAllMeans` | query/plan/plan.go:670-676 | a row passes the joined predicates exactly when it passes each, in three-valued logic |
| `Predicates.SplitAndJoin` | query/plan/plan.go:663-676 | splitting a condition and joining it again keeps what a filter keeps |
| `MatchPlan.NodeSplit` | query/plan/plan.go:553-582 | the residual conditions of the anchor and what its access method enforces are together all its conditions |
| `MatchPlan.ResidualSplit` | query/plan/plan.go:553-582 | the same for the whole part |
| `MatchPlan.ResidualMeans` | query/plan/plan.go:553-582 | the conditions a plan checks when nothing is guaranteed are exactly the labels and properties that the pattern asks for |
| `MatchPlan.RemainingSplit` | query/plan/plan.go:244-248 | leaving out a consumed conjunct and enforcing it elsewhere is keeping all conjuncts |
| `PlanMeaning.FilterCount` | internal/exec/exec.go:539-556 | the filter keeps each row that satisfies every predicate, as often as it came |
| `PlanMeaning.NodeConditions` | query/plan/plan.go:326-382 | the anchor's scan and the filter check together exactly the conditions of the pattern |
| `PlanMeaning.BoundPlanCount` | query/plan/plan.go:333-338 | a plan that starts from a bound node yields each row as often as the pattern wants it |
| `PlanMeaning.NodePlanCount` | query/plan/plan.go:339-366 | so does a plan that starts from any justified full, label, seek or range scan |
| `PlanMeaning.RelPlanCount` | query/plan/plan.go:1058-1085 | so does a plan that starts from a relationship seek |
| `PlanMeaning.PlanOutputCount` | query/plan/plan.go:326-382 | so does every plan of the part |
| `PlanMeaning.PlansAgree` | query/plan/plan.go:326-382 | any two plans of a part give the same rows the same number of times |
| `ExpandOps.Gather` | internal/exec/expand.go:135-163 | the candidate edges are the neighbour list of the node |
| `ExpandOps.Expand.Next` | internal/exec/expand.go:73-132 | pulls, per input row, the extensions that pass the bound target; a source that is not a node fails |
| `ExpandOps.ExpandedIsAll` | internal/exec/expand.go:73-132 | on rows that bind the source to a node the output is that of the counting results |
| `ExpandOps.RelSeek.Next` | internal/exec/relseek.go:57-102 | pulls the readings of each sought relationship in turn |
| `ExpandOps.Orientations` | internal/exec/relseek.go:84-100 | outgoing reading first; a pattern with one variable at both ends keeps self-loops only |
| `Planning.ReadEqualities` | query/plan/plan.go:221-227 | collects every equality reading of the conjuncts and nothing else |
| `Planning.ReadRanges` | query/plan/plan.go:228-233 | collects the range readings of the conjuncts in their order |
| `Planning.RangesFrom` | query/plan/plan.go:228-233 | each of them is a conjunct, or one with its sides swapped |
| `Planning.LimitRead` | query/plan/plan.go:804-826 | a conjunct is read as a limit exactly when it compares a property, on the left if both sides are properties, or gives it a prefix |
| `Planning.FindSeek` | query/plan/plan.go:449-464 | finds an index seek exactly when an indexed equality with a computable value exists |
| `Planning.First` | query/plan/plan.go:494-516 | the first reading that limits the key from one side by a computable value, or that there is none |
| `Planning.BoundsFor` | query/plan/plan.go:494-516 | takes the first prefix alone, or else the first bound of each side |
| `Planning.BestRangeFits` | query/plan/plan.go:494-516 | these limits are conjuncts with computable values |
| `Planning.FindRange` | query/plan/plan.go:477-522 | finds a range scan exactly when a label of the node is indexed on a key that a conjunct limits by a computable value; it is on such an index and has the limits of its key |
| `Planning.ScoreNode` | query/plan/plan.go:448-472 | the access method is justified by the node's conditions, on an index where it needs one, and the best that the conditions allow |
| `Planning.ChooseAnchor` | query/plan/plan.go:427-444 | the chosen node is the first with the best access method |
| `Planning.FindRelSeek` | query/plan/plan.go:1018-1052 | finds the first relationship of one type with an indexed, computable equality, exactly when there is one |
| `Planning.ChooseStart` | query/plan/plan.go:326-366 | the start is a bound node exactly when there is one, a relationship seek exactly when no node can be sought and a relationship can, else the best node; it is justified and on an index where it needs one |
| `Planning.Planner.EmitExpand` | query/plan/plan.go:410-425 | emits one expand, flipped when it goes leftward, and binds its variables |
| `Planning.Planner.ExpandOutwards` | query/plan/plan.go:367-374 | emits exactly the expands to the right and then to the left |
| `AccessPaths.ScalarEquality` | internal/exec/eval.go:602-605 | equality with a scalar is the equality of the indexes |
| `AccessPaths.SeekScans` | internal/exec/exec.go:430-474 | a property lookup returns what a plan assumes of a seek, for scalars, lists, maps and null |
| `AccessPaths.FullScans` | internal/graph/traversal.go:168-172 | a full scan returns what a plan assumes of it |
| `AccessPaths.LabelScans` | internal/graph/traversal.go:176-178 | a label scan returns what a plan assumes of it |
| `AccessPaths.RangeScans` | internal/exec/exec.go:385-428 | a range cursor returns what a plan assumes of a range scan |
| `AccessPaths.RelSeekScans` | internal/exec/relseek.go:20-55 | a relationship lookup returns what a plan assumes of a relationship seek |
| `Lookups.NodesWithEqualProperty` | internal/exec/exec.go:457-474 | the label scan with query equality returns, ascending, exactly the labelled nodes whose property equals the value |
| `Lookups.PropertyScanIds` | internal/exec/exec.go:430-455 | a node seek returns what a plan assumes of it, for null, scalars, lists and maps |
| `Lookups.EdgesWithEqualProperty` | internal/exec/relseek.go:43-52 | the type scan with query equality returns, ascending, exactly the relationships whose property equals the value |
| `Lookups.RelSeekRefs` | internal/exec/relseek.go:20-55 | a relationship seek returns what a plan assumes of it |
| `Lookups.RangeScanIds` | internal/exec/exec.go:385-428 | a range scan streams what a plan assumes of it, and nothing for a prefix that is no string |
| `PlanRun.BackedScans` | internal/exec/exec.go:200-230 | an access method that is on an index where it needs one scans as the plan assumes |
| `PlanRun.StartedRows` | query/plan/plan.go:326-382 | from any start the planner may return, the rows are those of a plan and each comes as often as it is wanted |
| `PlanRun.PipedIsRun` | internal/exec/expand.go:73-132 | expand operators run one after another on fitting rows do not fail and give the rows of the counting results |
| `PlanRun.ExecutedIsOutput` | query/plan/plan.go:326-382 | running the start, the expands and the filter gives the rows of the plan |
| `PlanRun.PlanPart` | query/plan/plan.go:326-382 | the start and the expands it plans, run with the filter over the lookups of any consistent store, never fail and give each row as often as it is wanted |
| `AccessPaths.StoredAdjacency` | internal/graph/crud.go:54-93 | the two adjacency tables of a consistent store mirror each other |

## Left out

- Badger, bbolt and Raft themselves: they appear as an ordered map with transactions and as logs with terms, one leader per term.
- Network forwarding, connection pools, TLS, client failover, the command line and editor support.
- Snapshots, backup files, context cancellation and time-outs; a Raft snapshot is not a step of `Replication`.
- Storage I/O errors: a read or write of an open transaction succeeds.
- The lexer, the parser, formatting, semantic analysis and error texts.
- Projection, grouping, DISTINCT, UNION, ORDER BY, SKIP and LIMIT.
- Floating-point arithmetic, string functions, regular expressions and parameter conversion.
- Names and listings of indexes and constraints, and the format marker.
- Variable-length and shortest-path parts in the planning results, reused relationship variables, and null endpoints after OPTIONAL MATCH.
- The decision not to load records that nothing reads (query/plan/plan.go:387-408).
- Planning.FindRange: tries the keys in the order of the conjuncts, where the source sorts them by name.
- GraphRun.Execute: a command stands for one committed transaction; several commands in one transaction are not modelled.
- GraphRun.Run: takes commands that set no property to null and too few of them for a counter to wrap; what one command does without that is stated by GraphRun.Execute.
- IndexAccess.NodesByProperty: assumes that ids fit the widths of their key fields, which GraphRun.Run keeps and GraphRun.EmptyEncodable starts.
- RangeScan.NodeCursor.Next: reads one fixed store, so later writes of the same transaction are not seen, not even in the records.
- RecordCodec.NodeRoundTrip: assumes lengths that a Go slice, string or map can have.
- Replication.RunIsSerial: one statement per write; a statement is a function of the data it is staged on.
- Planning.FindRelSeek: type ids are those of interned types, which start at 1; an unknown type matches nothing.
- IntArith.Sum: integers and nulls only; a float in the input switches the source to floating-point sums.
- IntArith.Accumulator.Take: integers and nulls only, for the same reason.
- BoltTxn.Store.Update: the function it runs is given by the writes it makes and whether it then fails, as a function of the data.
- WriteSet.ReadBytes: the source makes a buffer of the announced length before it reads, so an absurd length can exhaust memory there; here it is only an error.
- BfsSearch.ShortestPaths: paths carry edge references, not loaded records.
- Trails.Enumerate: hits carry edge references where the source carries edge ids.
