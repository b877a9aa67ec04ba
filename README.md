# Topology extractor — a verified model

This project models the topology extractor of a robot map library in Dafny.
The extractor takes a thinned occupancy skeleton, a boolean mask indexed by
row and column, and turns it into a graph. The graph's nodes are endpoints,
intersections and waypoints of the skeleton. Its edges are the skeleton arcs
that join nodes, each given as the list of pixels it runs through.

The pipeline has three stages, plus the helpers they share.

1. **Seeding** (`find_seed_points`) flood-fills the 8-connected skeleton
   components and keeps one seed pixel per component.
2. **Node finding** (`find_nodes`) walks each component breadth first from its
   seed and scores every pixel:
   - a score of 1 or less adds an Endpoint;
   - a score of 3 or more adds an Intersection;
   - a component with no such pixel gets one Waypoint at the last pixel
     walked;
   - every node queues a tracing origin on its own pixel.
3. **Edge tracing** (`find_edges`) is a breadth-first flood from all origins
   at once over an exploration grid, whose cells move Unvisited → Visited →
   Merged. When the flood pops a cell that is already Visited, two floods
   have met. `merge_and_add_edge` then walks both predecessor chains back to
   their nodes, marks the chain cells Merged and adds one edge from the lower
   node id to the higher.

The helpers are:
- the bounds-checked step onto the ring of eight neighbour offsets;
- the pixel score;
- the visit mask, which forbids a diagonal step beside an orthogonal
  skeleton neighbour.

Files, one module each:

| file | module | what it holds |
|---|---|---|
| `grid.dfy` | `Grid` | positions, the mask, the neighbour ring, 8-connectivity (`Reachable`) |
| `pixel_score.dfy` | `Scoring` | the pixel score and what it counts |
| `visit_mask.dfy` | `VisitMask` | the visit mask and its characterisation |
| `graph.dfy` | `Topology` | node and edge values and the graph container (`class Graph`) |
| `seeds.dfy` | `Seeds` | the seeder as methods with loop invariants |
| `nodes.dfy` | `Nodes` | the node finder as methods, specified by the functions `ClassifiedNodes`, `ComponentNodes` and `AllNodes` |
| `edges.dfy` | `Edges` | the exploration grid (`array2<Cell>` mirrored by a ghost map), the chain walks, the edge tracer |
| `extractor.dfy` | `Extractor` | the whole pipeline and the facts that join the stages |

How the stateful code is modelled:
- The three pure helpers are functions.
- The graph is a class whose methods append to its node and edge sequences.
- Every queue is a `seq` used first-in first-out.
- Every hash set is a `set`.
- The exploration grid is an `array2<Cell>` that the methods update in place.
  A ghost `map<Pos, Cell>` mirrors it so that the specification can talk
  about the grid as a value.
- A ghost visit stamp orders the cells by when they were reached. This shows
  that every predecessor chain ends at a node's cell, so the chain walks stop.

## Model


| member | source | states |
|---|---|---|
| Grid.NeighboringPos | map/src/topology/topology_generation/topology_extractor.rs:437-451 | the step along rim offset i is present exactly when the shifted position lies in [0,w)×[0,h); it is then that shifted position, which touches the start pixel |
| Grid.RimIndexOf | map/src/topology/topology_generation/topology_extractor.rs:24-33 | every in-grid pixel that touches p is reached from p along some rim offset, so a pass over the ring sees all 8-neighbours |
| Grid.ReachableStep | map/src/topology/topology_generation/topology_extractor.rs:93-103 | a flood step onto a touching skeleton pixel keeps the pixel reachable from the seed |
| Grid.ReachableSymmetric | map/src/topology/topology_generation/topology_extractor.rs:93-103 | between skeleton pixels, 8-connectivity is symmetric |
| Grid.ClosedContainsReachable | map/src/topology/topology_generation/topology_extractor.rs:81-109 | a pixel set that no step through the skeleton can leave holds everything reachable from its members |
| Scoring.RimCell | map/src/topology/topology_generation/topology_extractor.rs:316-318 | the rim cell at offset i is present exactly when it lies on the grid; a negative coordinate wraps to a huge index and so reads as absent |
| Scoring.AdjacentPixels | map/src/topology/topology_generation/topology_extractor.rs:316-322 | the count of present skeleton pixels among the first n rim cells is at most n |
| Scoring.ContiguousIntervals | map/src/topology/topology_generation/topology_extractor.rs:324-343 | the count of rim pairs (i, i+1 mod 8) with no present background member is at most n |
| Scoring.PixelScore | map/src/topology/topology_generation/topology_extractor.rs:313-347 | the score is neighbours minus unbroken pairs and lies between -8 and 8 |
| Scoring.InteriorScoreCountsArms | map/src/topology/topology_generation/topology_extractor.rs:313-347 | away from the border the score equals the number of run ends around the rim (a skeleton rim cell followed clockwise by a non-skeleton one), so it lies in 0..4; this is the number of runs of skeleton neighbours, except that a full ring scores 0 |
| Scoring.IsolatedScoresZero | map/src/topology/topology_generation/topology_extractor.rs:313-347 | an interior pixel with no skeleton neighbour scores 0 and so becomes an Endpoint |
| Scoring.LineEndScoresOne | map/src/topology/topology_generation/topology_extractor.rs:313-347 | an interior pixel with exactly one skeleton neighbour scores 1 |
| Scoring.StraightLineScoresTwo | map/src/topology/topology_generation/topology_extractor.rs:313-347 | an interior pixel whose only skeleton neighbours are two opposite rim cells scores 2 and so is not a node |
| Scoring.FullRingScoresZero | map/src/topology/topology_generation/topology_extractor.rs:313-347 | an interior pixel whose eight neighbours are all skeleton pixels has no run end and scores 0 |
| Scoring.TopBorderLineScoresNegative | map/src/topology/topology_generation/topology_extractor.rs:324-346 | on the top row an off-grid rim cell counts as no neighbour but does not break a pair, so the inner pixel of a horizontal border line scores -2 |
| VisitMask.GetVisitMask | map/src/topology/topology_generation/topology_extractor.rs:283-311 | the visit mask has one entry per rim offset; which entries are set is stated by VisitMask.VisitMaskSpec |
| VisitMask.ClearFlanksAt | map/src/topology/topology_generation/topology_extractor.rs:299-308 | after k rounds of the second pass an even entry is untouched and an odd entry is cleared exactly when a flank already processed is set |
| VisitMask.VisitMaskSpec | map/src/topology/topology_generation/topology_extractor.rs:283-311 | no entry is set for an absent or background neighbour; even entries equal the raw mask; odd entry j is set exactly when that diagonal is a skeleton pixel and neither flank j-1 nor j+1 (mod 8) is |
| VisitMask.DroppedDiagonalHasDetour | map/src/topology/topology_generation/topology_extractor.rs:299-308 | a skeleton diagonal the mask drops has a flanking orthogonal neighbour that is allowed and touches that diagonal, so the skeleton stays traceable |
| Topology.Graph.constructor | map/src/topology/topology_generation/topology_extractor.rs:43 | a new graph has no nodes and no edges |
| Topology.Graph.AddNode | map/src/topology/topology_generation/topology_extractor.rs:139-143 | adding a node appends it and hands back its fresh id, the old node count |
| Topology.Graph.AddEdge | map/src/topology/topology_generation/topology_extractor.rs:428-434 | adding an edge between existing ids appends it and changes nothing else |
| Seeds.CollectForeground | map/src/topology/topology_generation/topology_extractor.rs:73-79 | the scan over every column and row collects exactly the skeleton pixels |
| Seeds.VisitRim | map/src/topology/topology_generation/topology_extractor.rs:90-107 | one rim pass removes and queues every unvisited skeleton neighbour of the point; afterwards none is left unvisited and every newly removed pixel is reachable from the seed |
| Seeds.FloodFill | map/src/topology/topology_generation/topology_extractor.rs:83-108 | the flood from a seed removes the seed and exactly pixels reachable from it, leaves the removed set closed under steps, and strictly shrinks the unvisited set |
| Seeds.NewSeedSeparated | map/src/topology/topology_generation/topology_extractor.rs:82 | a seed picked outside the closed set of earlier floods neither reaches nor is reached from an earlier seed |
| Seeds.AddComponent | map/src/topology/topology_generation/topology_extractor.rs:81-113 | one round picks an arbitrary unvisited pixel as seed, floods its component out and keeps the seeder's invariant while the unvisited set shrinks |
| Seeds.FindSeedPoints | map/src/topology/topology_generation/topology_extractor.rs:68-115 | every seed is a skeleton pixel; no seed reaches another; every skeleton pixel is reachable from some seed; there are no seeds exactly when the mask has no skeleton pixel; every skeleton pixel leaves the unvisited set exactly once |
| Nodes.NodeAt | map/src/topology/topology_generation/topology_extractor.rs:136-162 | a pixel gets no node exactly when its score is 2; otherwise it gets one node, on that pixel, never a Waypoint (Nodes.ClassifiedNodesSpec states its kind) |
| Nodes.FullRingIsEndpoint | map/src/topology/topology_generation/topology_extractor.rs:136-162 | a pixel ringed by eight skeleton neighbours scores 0, so the classifier adds an Endpoint there |
| Nodes.ClassifiedNodesSpec | map/src/topology/topology_generation/topology_extractor.rs:133-164 | a walk that scores each pixel once adds one node per pixel whose score is not 2, each on its pixel and of the kind its score calls for |
| Nodes.ComponentNodesSpec | map/src/topology/topology_generation/topology_extractor.rs:182-195 | a component gets max(1, classified pixels) nodes; it gets a Waypoint exactly when every pixel scores 2, and that Waypoint sits on the last pixel walked |
| Nodes.NoClassifiedNodes | map/src/topology/topology_generation/topology_extractor.rs:182-185 | if every pixel walked scores 2, no node is classified |
| Nodes.SomeClassifiedNode | map/src/topology/topology_generation/topology_extractor.rs:136-164 | a walked pixel whose score is not 2 yields its node |
| Nodes.NewNeighborsSpec | map/src/topology/topology_generation/topology_extractor.rs:166-179 | the pixels a rim pass queues are distinct, touching, unvisited skeleton pixels, and every unvisited skeleton pixel along an offset already passed is among them |
| Nodes.RimPassCovers | map/src/topology/topology_generation/topology_extractor.rs:166-179 | after the whole rim pass every touching skeleton pixel is visited or newly queued |
| Nodes.RimPassProgress | map/src/topology/topology_generation/topology_extractor.rs:166-179 | a rim pass either marks a skeleton pixel that was not visited or queues nothing, so the walk ends |
| Nodes.EnqueueNeighbors | map/src/topology/topology_generation/topology_extractor.rs:166-179 | one rim pass queues exactly NewNeighbors: the skeleton neighbours not yet visited, in rim order, each once; it marks them visited and leaves no touching skeleton pixel unvisited |
| Nodes.ScanStep | map/src/topology/topology_generation/topology_extractor.rs:133-179 | scoring the head of the walk's queue and queueing its new neighbours keeps the walk's invariant, and either visits a new pixel or shrinks the queue |
| Nodes.ScanComplete | map/src/topology/topology_generation/topology_extractor.rs:133 | once the walk's queue is empty, the pixels scored are the seed first and then every pixel reachable from it, each exactly once |
| Nodes.WalkStep | map/src/topology/topology_generation/topology_extractor.rs:133-179 | one round of the walk as BfsOrder defines it keeps the walk's invariant |
| Nodes.WalkFromScans | map/src/topology/topology_generation/topology_extractor.rs:133-180 | a walk run to its end from a state that keeps the walk's invariant scores the seed first and then every pixel reachable from it, each once |
| Nodes.BfsOrderSpec | map/src/topology/topology_generation/topology_extractor.rs:126-180 | the breadth-first order from a seed (first in, first out; neighbours queued in rim order) starts at the seed and scores every pixel reachable from it exactly once |
| Nodes.ClassifyPixel | map/src/topology/topology_generation/topology_extractor.rs:135-164 | scoring a pixel adds its node when classified, queues that node's origin with the id the graph handed back, and reports whether it added one |
| Nodes.ClassifyNext | map/src/topology/topology_generation/topology_extractor.rs:135-164 | the same, stated over the whole walk so far: the graph holds ClassifiedNodes of the walk and the queue their origins |
| Nodes.ScanNext | map/src/topology/topology_generation/topology_extractor.rs:133-179 | one round of the walk scores the next queued pixel and queues its unvisited neighbours; it keeps the graph, queue and walk invariants, counts the node it adds, and leaves the rest of the breadth-first order unchanged |
| Nodes.WalkComponent | map/src/topology/topology_generation/topology_extractor.rs:126-180 | the walk over one component scores its pixels in exactly the breadth-first order BfsOrder from the seed, so each reachable pixel once, adds their classified nodes and origins, and counts them |
| Nodes.ScanComponent | map/src/topology/topology_generation/topology_extractor.rs:126-195 | one seed's pass walks in BfsOrder and adds exactly ComponentNodes of that walk, with the Waypoint fallback, and one origin per new node |
| Nodes.ScanNextComponent | map/src/topology/topology_generation/topology_extractor.rs:125-195 | one round of the loop over the seeds: the next seed's component is walked in BfsOrder, and the graph and the queue gain its nodes and origins on top of those of the earlier components (AllNodes over one more walk) |
| Nodes.FindNodes | map/src/topology/topology_generation/topology_extractor.rs:117-196 | the node pass walks every seed's component in seed order, each in BfsOrder, and adds AllNodes of those walks, each with one origin carrying its id; it adds no edge |
| Edges.Rank | map/src/topology/topology_generation/topology_extractor.rs:465-470 | the cell states in their order of life; only Unvisited has rank 0 |
| Edges.Chain | map/src/topology/topology_generation/topology_extractor.rs:363-379 | the predecessor chain from a reached cell starts at that cell |
| Edges.ChainSpec | map/src/topology/topology_generation/topology_extractor.rs:363-379 | a chain runs over reached cells of one root, each step to a touching predecessor, and ends at a node's cell |
| Edges.ChainInterior | map/src/topology/topology_generation/topology_extractor.rs:370-372 | along a chain only the last cell is its own predecessor, which is where the walk stops |
| Edges.JoinedEnds | map/src/topology/topology_generation/topology_extractor.rs:363-404 | the joined waypoint list runs from a's node to b's node over cells of those two roots |
| Edges.ContiguousChain | map/src/topology/topology_generation/topology_extractor.rs:363-379 | consecutive cells of a chain touch |
| Edges.MeetingEdgeSpec | map/src/topology/topology_generation/topology_extractor.rs:350-435 | the edge goes from min(root) to max(root); it is a self-loop exactly when the roots are equal; its ends are the two roots; its pixels run from the lower root's node pixel to the higher's, each reached by one of the two floods; when the meeting cells touch, consecutive pixels touch |
| Edges.AfterMergeSpec | map/src/topology/topology_generation/topology_extractor.rs:363-404 | a meeting changes only states: chain cells other than the two node cells become Merged, node cells keep their state, and links, roots and unreached cells are unchanged |
| Edges.WalkThisSide | map/src/topology/topology_generation/topology_extractor.rs:356-379 | walking a's chain pushes each cell at the front, so the list is the chain reversed, and marks every cell but the node's Merged |
| Edges.WalkOtherSide | map/src/topology/topology_generation/topology_extractor.rs:381-404 | walking b's chain pushes each cell at the back and marks every cell but the node's Merged |
| Edges.MergeAndAddEdge | map/src/topology/topology_generation/topology_extractor.rs:350-435 | the grid becomes AfterMerge and exactly the edge MeetingEdge is appended to the graph, whose nodes are unchanged |
| Edges.OrientEdge | map/src/topology/topology_generation/topology_extractor.rs:406-427 | copies the waypoints forward when this side's root is strictly lower and backward otherwise, and orders the ids lower first |
| Edges.SetMerged | map/src/topology/topology_generation/topology_extractor.rs:376-379 | marking a chain cell Merged changes that cell's state in the grid and nothing else |
| Edges.AllowedStepsSpec | map/src/topology/topology_generation/topology_extractor.rs:242-272 | the allowed rim steps below k are exactly those whose mask entry is set, whose neighbour is on the grid, is not the item's predecessor and is unreached |
| Edges.ExpansionsCount | map/src/topology/topology_generation/topology_extractor.rs:242-279 | a cell queues exactly one item per allowed rim step |
| Edges.ExpansionsSpec | map/src/topology/topology_generation/topology_extractor.rs:242-279 | every item queued from a cell carries its root, has it as predecessor and targets an in-grid, mask-allowed, unreached, touching skeleton pixel other than the cell's own predecessor; every allowed rim step is queued |
| Edges.AllowedExpands | map/src/topology/topology_generation/topology_extractor.rs:244-272 | an allowed rim step yields such an item |
| Edges.ExpandCell | map/src/topology/topology_generation/topology_extractor.rs:242-279 | the rim loop appends exactly the Expansions of the cell, in rim order |
| Edges.ReachKeepsLinks | map/src/topology/topology_generation/topology_extractor.rs:233-240 | reaching an unreached cell records its root and predecessor so that every chain still ends at a node |
| Edges.ReachKeepsRoots | map/src/topology/topology_generation/topology_extractor.rs:233-240 | reaching a cell removes exactly it from the unreached cells, moves it forward only, and keeps every root valid |
| Edges.ReachKeepsItems | map/src/topology/topology_generation/topology_extractor.rs:233-279 | after a cell is reached, every remaining and every new queue item is well formed |
| Edges.ReachKeepsOrder | map/src/topology/topology_generation/topology_extractor.rs:242-279 | new items go behind the nodes' own items, so origins stay at the front of the queue |
| Edges.ReachKeepsApart | map/src/topology/topology_generation/topology_extractor.rs:233-279 | origins still queued stay on distinct unreached cells |
| Edges.ReachKeepsSkeleton | map/src/topology/topology_generation/topology_extractor.rs:233-279 | reaching a cell and queueing its expansions keeps every reached cell and every queued target a skeleton pixel |
| Edges.PopKeeps | map/src/topology/topology_generation/topology_extractor.rs:213 | dropping the front item keeps the flood's invariant |
| Edges.MergeKeeps | map/src/topology/topology_generation/topology_extractor.rs:223-232 | a merge keeps the flood's invariant over the merged grid |
| Edges.MeetFront | map/src/topology/topology_generation/topology_extractor.rs:223-232 | an item popped at a cell already reached leaves the rest of the queue well formed, and when origins are apart it came from a touching cell |
| Edges.MeetingEdgeOk | map/src/topology/topology_generation/topology_extractor.rs:223-232 | the edge added where two floods meet joins existing nodes lower id first, from node pixel to node pixel, through skeleton pixels, and is contiguous when the meeting cells touch |
| Edges.MeetKeeps | map/src/topology/topology_generation/topology_extractor.rs:223-232 | a meeting keeps the flood's invariant and yields an edge between existing nodes, lower id first, from node pixel to node pixel through skeleton pixels, contiguous when origins are apart |
| Edges.MeetAt | map/src/topology/topology_generation/topology_extractor.rs:223-232 | a popped Visited cell causes exactly one merge and one edge |
| Edges.ReachAt | map/src/topology/topology_generation/topology_extractor.rs:233-279 | a popped Unvisited cell is reached with the item's root and predecessor, and its Expansions are queued |
| Edges.ProcessItem | map/src/topology/topology_generation/topology_extractor.rs:212-280 | one turn: a Merged cell is discarded; a Visited cell adds exactly one edge; an Unvisited cell is reached and expanded; states only move forward, root and predecessor are written only on the first visit, and either a cell is reached or the queue shrinks |
| Edges.FreshExploring | map/src/topology/topology_generation/topology_extractor.rs:203-210 | a fresh all-Unvisited grid with the nodes' origins queued satisfies the flood's invariant |
| Edges.FindEdges | map/src/topology/topology_generation/topology_extractor.rs:198-281 | the flood terminates, keeps the nodes and only appends edges; each joins existing nodes lower id first and runs through skeleton pixels from the lower node's pixel to the higher's; it is contiguous when the origins are on distinct pixels |
| Extractor.ReachableThrough | map/src/topology/topology_generation/topology_extractor.rs:81-109 | two skeleton pixels that reach a common pixel reach each other |
| Extractor.SeparatedOrdersDisjoint | map/src/topology/topology_generation/topology_extractor.rs:126-180 | the walks from separated seeds share no pixel |
| Extractor.ClassifiedNodesApart | map/src/topology/topology_generation/topology_extractor.rs:133-164 | a walk that scores each pixel once puts its classified nodes on distinct pixels |
| Extractor.ComponentNodesApart | map/src/topology/topology_generation/topology_extractor.rs:126-195 | a component's nodes sit on distinct pixels of the component, and there is at least one |
| Extractor.AllNodesInComponents | map/src/topology/topology_generation/topology_extractor.rs:117-196 | every node sits on a pixel of some walked component, and every component contributes a node |
| Extractor.AllNodesApart | map/src/topology/topology_generation/topology_extractor.rs:117-196 | the nodes of all components sit on distinct pixels |
| Extractor.NodePassReady | map/src/topology/topology_generation/topology_extractor.rs:57-63 | after seeding and node finding the nodes sit on distinct skeleton pixels and exist exactly when the skeleton is not empty; their origins start the flood |
| Extractor.Extract | map/src/topology/topology_generation/topology_extractor.rs:38-66 | the whole pipeline: the seeds are separated skeleton pixels covering the skeleton, each component is walked in its breadth-first order, and the nodes are exactly AllNodes of those walks (pixels not scoring 2, with the kind their score calls for, or one Waypoint at the last pixel of a component without any); they sit on distinct skeleton pixels and exist exactly when the skeleton is not empty; every edge runs from its lower node to its higher node through touching skeleton pixels |

## Left out

- Thinning and the occupancy mapping (lines 40-42) are external. The model takes the thinned mask as its input. `ZhangSuenThinningAlgorithm` and `GridMap` are not part of this model.
- The debug image export (lines 46-55) is file I/O and is left out.
- All `println!` logging is left out, along with the bounds probe at lines 216-219, which only logs.
- `Graph`, `TopologyNode` and `TopologyEdge` are not part of this model:
  - the graph is modelled as sequences of nodes and edges;
  - a node id is its index, which makes ids fresh and distinct;
  - the flags of `Graph::new(true, true)` are not modelled;
  - the failure `add_edge` reports on a missing id becomes a precondition, which every call meets.
- `Vector2D` positions are modelled as integer pixel positions. The source converts each coordinate to `f64` with a plain cast.
- Integer widths (`u32` node ids, `usize` and `isize` coordinates, the `i32` score) are unbounded in the model. The one wrap that matters, a negative coordinate cast to `usize` in the pixel score, is modelled as an absent cell.
- The seed is the first pixel a hash set yields. The model picks an arbitrary unvisited pixel and states nothing that depends on which one it is.
- The `pos` field of the exploration grid's cells is never read, so it is not modelled.
- The Unvisited branch of find_edges writes a cell field by field, including the state twice; the model does one write with the same result.
- The connected-point counter of the seeder feeds only a log line and is not modelled.
- Edges.FindEdges: it is specified only for a queue of node origins on in-grid node pixels, which is what the node pass produces. That edges are contiguous is proved only when those origins sit on distinct pixels. In the full pipeline they do (Extractor.Extract).
- Edges.FindEdges: a node whose origin lands on a cell already reached by another node's flood is covered only by the general edge guarantees. This cannot happen in the full pipeline, where node pixels are distinct.
- Edges.ProcessItem and Edges.FindEdges do not state that every cell reachable from a node is eventually reached. The model proves the shape of the edges the flood adds, not which pairs of nodes the flood connects.
- Extractor.Extract: its edge guarantees come from Edges.FindEdges, so it inherits the same gap. It does not state that every skeleton pixel is reached by the flood, or which pairs of nodes get an edge (for example, that a bare line between two endpoints gets exactly one edge).
