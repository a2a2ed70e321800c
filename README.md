# n-jigsaw board generator, modelled in Dafny

`solve.py` builds a jigsaw puzzle of W x H pieces whose solution is a shuffled,
re-rotated arrangement of the pieces. One generation attempt runs five stages on a
`Board`:

1. the constructor lays the pieces out in rows, four edge slots per piece, each
   border piece turned so that the slot at offset 3 faces outwards;
2. `connect_adjacent_edges` wires every pair of facing slots of the solved board;
3. `shuffle` swaps border pieces among border cells (three at a time) and interior
   pieces among interior cells (three at a time, giving one of them a random
   rotation);
4. `merge_edges` looks, for every seam of the shuffled board, at the slot on this
   side and at the slot the neighbour's facing slot is wired to, and records that
   the two must be cut alike;
5. `collapse_edges` groups merged edges, builds the graph of groups linked by
   connections, 2-colours each of its components by depth parity, and writes a
   group number and a Knob or Socket shape to every connected edge.

The attempt is kept when `check_all_unique` finds no two pieces with the same
sequence of (group, shape) on their four slots.

The Dafny project has one module per concern:

- `grid.dfy` (`Grid`): directions, rotations, positions, row-major piece indices,
  the slot a (position, direction) pair addresses, and which cells are corners,
  sides and interior.
- `arena.dfy` (`Arena`): the `Edge` value, and the invariants that hold between
  stages. `Layout` says every piece owns its block of four slots. `Wired` is the
  solved board's wiring. `Arranged` says where the shuffle may have moved each
  piece. `EdgeColouring` is a knob/socket 2-colouring of the edges.
- `shuffling.dfy` (`Shuffling`): `swap` and the two shuffle passes as functions on
  the piece list, and the proofs that they keep the arrangement invariant.
- `merging.dfy` (`Merging`): the seam relation that `merge_edges` records, and the
  proof that merging leaves the merge relation symmetric and only on connected
  edges.
- `walks.dfy` (`Walks`): walks through the arena along merges and connections,
  and walks through the graph of groups along links.
- `collapse.dfy` (`Collapse`): the four steps of `collapse_edges`, each as a method
  with loops, plus the proof that the result is a consistent cut. Component k of
  the group graph, walked from its root, gets group-groups 2k (even depth, Knob)
  and 2k + 1 (odd depth, Socket). So two connected edges end with the same group
  number exactly when a walk of merges and connections joins them. The last
  step gives the two sides of every seam opposite shapes whenever the edges
  admit a 2-colouring.
- `jigsaw.dfy` (`Jigsaw`): the `Board` class. Its `pieces` and `edges` lists are
  sequence fields that its methods reassign. The file also holds one full
  generation attempt.

The original mutates `Piece` and `Edge` objects in place. Each such object is held
by exactly one slot of its list, so the model stores them as values and replaces
the slot. An edge's `connection` and `merges` refer to other edges by their index
in the arena. Randomness becomes parameters:

- the shuffled border list and the shuffled interior list, which must be
  rearrangements of the lists the source builds;
- one rotation per full interior triple.

## Model

| member | source | states |
|---|---|---|
| Grid.DirectionOf | solve.py:24-28 | the k-th direction in declaration order (the order of `for direction in Direction`) has value k |
| Grid.InverseUndoesStep | solve.py:30-48 | stepping by a direction's delta and then by its inverse's returns to the start; inverse is an involution without fixed points and adds 2 to the value modulo 4 |
| Grid.AdjacentIffStep | solve.py:93-94 | two positions are adjacent (Manhattan distance 1) exactly when one direction's delta leads from one to the other |
| Grid.PieceIndex | solve.py:104-105 | the row-major index of an in-bounds position is below W*H |
| Grid.PositionOfIndex | solve.py:104-105 | dividing the row-major index by the width recovers the position |
| Grid.IndexOfPosition | solve.py:104-105 | every index below W*H is the row-major index of an in-bounds position |
| Grid.PieceIndexInjective | solve.py:104-105 | distinct in-bounds positions have distinct piece indices |
| Grid.DirectionAt | solve.py:107-112 | for every rotation, each offset 0..3 is reached by some direction |
| Grid.SlotInjective | solve.py:107-112 | the offset (rotation + direction) mod 4 is below 4 and different directions give different offsets |
| Grid.EdgeIndexInitial | solve.py:107-112 | on the constructor's board, get_edge_index of (p, d) is the home slot 4*index(p) + (rotation(p) + d) mod 4 |
| Grid.HomeSlotBijective | solve.py:107-112 | home slots lie in the arena and distinct (position, direction) pairs have distinct home slots |
| Grid.HomeSlotOnto | solve.py:107-112 | every arena slot is the home slot of some in-bounds (position, direction) |
| Grid.SideFacesOutAtThree | solve.py:74-83 | on a non-corner border cell, the constructor's rotation puts offset 3 exactly on the direction that leaves the board |
| Grid.InteriorHasNoOutside | solve.py:96-102 | every neighbour of an interior cell is in bounds |
| Grid.OutsideCountByClass | solve.py:96-102 | a corner has two neighbours out of bounds, another border cell one, an interior cell none |
| Grid.FacingStep | solve.py:141-151 | connect_pieces picks, for the neighbour in direction d, the pair (d, inverse of d) |
| Arena.InitialDistinct | solve.py:85-91 | the constructor numbers the pieces with distinct ids |
| Arena.EdgeIndexInBlock | solve.py:107-112 | get_edge_index stays inside the four-slot block of the piece at the position, and inside the arena |
| Arena.EdgeIndexInjective | solve.py:107-112 | with distinct piece ids, distinct (position, direction) pairs address distinct slots |
| Arena.WiredSymmetric | solve.py:196-211 | the solved board's wiring is a symmetric pairing: a slot's partner is connected back to it |
| Arena.InitialArranged | solve.py:70-91 | the constructor's pieces own their blocks and satisfy the shuffle's placement invariant |
| Arena.OpenAt | solve.py:173-180 | on any arranged board with the solved wiring, a slot has no connection exactly when it faces outside the grid |
| Arena.ArrangedWiredOpen | solve.py:173-180 | the same for every cell and direction at once |
| Arena.OpenSlotsCountOutside | solve.py:173-180 | swap's count of unconnected slots is 2 at a corner, 1 at another border cell, 0 inside |
| Shuffling.RowRunMembers | solve.py:216-221 | a cell is in the top/bottom-row run exactly when it is on that row, inside the column range, and not on the diagonal |
| Shuffling.ColumnRunMembers | solve.py:223-228 | a cell is in the left/right-column run exactly when it is on that column, inside the row range, and not on the diagonal |
| Shuffling.FullRowMembers | solve.py:243-245 | a cell is in one row of the interior list exactly when it is on that row within the column range |
| Shuffling.CenterRowsMembers | solve.py:241-245 | a cell is in the interior rows' list exactly when both coordinates are strictly inside |
| Shuffling.BorderCellsExactly | solve.py:214-228 | shuffle's border list holds exactly the non-corner border cells whose row differs from their column |
| Shuffling.CenterCellsExactly | solve.py:241-245 | shuffle's interior list holds exactly the interior cells |
| Shuffling.SwapResult | solve.py:168-194 | swap's new piece list still has one piece per cell, each owning its block |
| Shuffling.SwapTrades | solve.py:168-194 | unequal open-slot counts leave the pieces alone; otherwise the two cells trade piece ids, keeping their own rotations when the count is positive and trading them too when it is zero |
| Shuffling.SwapElsewhere | solve.py:158-166 | a swap leaves every other cell's piece unchanged |
| Shuffling.SwapSucceeds | solve.py:238-239 | two border cells or two interior cells of an arranged board have equal open-slot counts, so shuffle's assert on swap holds |
| Shuffling.SwapKeepsArranged | solve.py:168-194 | a swap between cells of the same kind keeps the placement invariant |
| Shuffling.SwapPermutesIds | solve.py:158-166 | a swap permutes the pieces: the multiset of ids is unchanged |
| Shuffling.CycleTriple | solve.py:238-239 | the two swaps of a triple keep one piece per cell |
| Shuffling.CycleTripleKeepsArranged | solve.py:238-239 | a border or interior triple keeps the placement invariant and the multiset of ids |
| Shuffling.CycleTripleTurned | solve.py:255-258 | a turned interior triple keeps one piece per cell |
| Shuffling.TurnKeepsLayout | solve.py:258 | re-rotating a piece keeps its block |
| Shuffling.TurnKeepsArranged | solve.py:258 | re-rotating an interior piece keeps the placement invariant and the ids |
| Shuffling.CycleAll | solve.py:232-239 | the border pass keeps one piece per cell |
| Shuffling.CycleAndTurnAll | solve.py:249-258 | the interior pass keeps one piece per cell |
| Shuffling.BorderOrderSide | solve.py:214-230 | any rearrangement of the border list lists only in-bounds non-corner border cells |
| Shuffling.CenterOrderInterior | solve.py:241-247 | any rearrangement of the interior list lists only in-bounds interior cells |
| Shuffling.CycleAllKeepsArranged | solve.py:232-239 | the border pass keeps the placement invariant and permutes the ids |
| Shuffling.CycleAndTurnAllKeepsArranged | solve.py:249-258 | the interior pass keeps the placement invariant and permutes the ids |
| Shuffling.NotVisited | solve.py:232-236 | a cell missing from the list is in none of the triples |
| Shuffling.CycleAllUntouched | solve.py:232-239 | the border pass leaves cells in no triple unchanged |
| Shuffling.CycleAndTurnAllUntouched | solve.py:249-258 | the interior pass leaves cells in no triple unchanged |
| Shuffling.ShuffleResult | solve.py:213-258 | the shuffle keeps one piece per cell |
| Shuffling.ShuffleKeepsArranged | solve.py:213-258 | the shuffle keeps the placement invariant and permutes the ids. Afterwards a slot is unconnected exactly when it faces outside. Corners and the diagonal side cells keep their pieces |
| Merging.MergeSeam | solve.py:272-280 | recording one merge changes no connection, group or shape |
| Merging.SeamPartnerPresent | solve.py:275-277 | the neighbour's facing slot is always connected, so the edge to merge with exists and merging does not change it |
| Merging.MergeSeamAdds | solve.py:279-280 | one seam adds exactly the pair (from, to) to the two merge sets, symmetrically |
| Merging.SeamStaysMerged | solve.py:279-280 | later merges never undo an earlier one |
| Merging.MergeSeamStep | solve.py:265-280 | each direction's pass extends the set of merged seams by that seam |
| Merging.SeamAddKeepsOnlyBySeams | solve.py:279-280 | every merge recorded comes from some seam |
| Merging.MergeSeamKeepsDone | solve.py:265-280 | the seams handled before this one stay merged |
| Merging.MergeNextCell | solve.py:261-265 | finishing a cell's four directions moves on to the next cell |
| Merging.MergeSkipOutside | solve.py:269-270 | a direction leaving the board records nothing |
| Merging.MergeStart | solve.py:260-262 | before the loops nothing has been merged |
| Merging.MergedAll | solve.py:261-280 | after the loops every seam is merged and only seams are |
| Merging.SeamConnected | solve.py:272-280 | both edges of a merged seam are connected and list each other |
| Merging.MergedWellFormed | solve.py:260-280 | after merge_edges the merge relation is symmetric, only relates connected edges, and connections stay symmetric |
| Merging.MergePairWellFormed | solve.py:260-280 | any recorded merge pair is symmetric and between connected edges |
| Merging.SeamWellFormed | solve.py:272-280 | every seam's pair is recorded in both directions |
| Collapse.Enumerate | solve.py:304 | walking a set lists exactly its members, in an order the caller cannot rely on |
| Collapse.CollectStep | solve.py:297-304 | one turn of the worklist keeps its invariant and either grows the group or shortens the queue |
| Collapse.MergesJoined | solve.py:304 | an edge pushed from a collected edge is reached from the root by a walk of merges, and leads back to it |
| Collapse.CollectGroup | solve.py:293-304 | the group grown from a connected edge contains it, holds only connected edges not yet grouped, is closed under merges, has one colour under any edge colouring, and each member is joined to the root by walks both ways |
| Collapse.AddGroup | solve.py:306-309 | storing a new group keeps the groups disjoint and their union merge-closed |
| Collapse.AddTied | solve.py:306-309 | storing a new group keeps every grouped edge tied by walks to its group's root |
| Collapse.FinishTied | solve.py:283-309 | any two edges of one group are joined by a walk |
| Collapse.GroupFrom | solve.py:286-309 | each pass of the first step leaves every connected edge below it grouped |
| Collapse.FindGroups | solve.py:283-309 | the groups partition the connected edges, merged edges share a group, any edge colouring is constant on each group, and any two edges of one group are joined by a walk of merges |
| Collapse.LinkEdge | solve.py:312-316 | a connected edge links its group to its partner's group |
| Collapse.GroupGraph | solve.py:311-317 | c is a neighbour of g exactly when some connected edge of g has its partner in c |
| Collapse.GroupGraphSymmetric | solve.py:311-317 | the group graph only names group ids and is symmetric |
| Collapse.PopKeepsClosed | solve.py:331-337 | popping a done or recorded group keeps every recorded group's neighbours accounted for |
| Collapse.SkipKeepsWalk | solve.py:333-337 | popping a group already coloured or already seen changes nothing else |
| Collapse.VisitKeepsQueue | solve.py:338-342 | the neighbours pushed by a new group sit one layer below it |
| Collapse.VisitKeepsClosed | solve.py:338-342 | after pushing a new group's neighbours, each is recorded, done or on the stack |
| Collapse.VisitKeepsTree | solve.py:338-342 | recording a new group keeps every group hanging from the start by a parent one layer up |
| Collapse.VisitKeepsLayers | solve.py:340 | adding the group to its layer keeps the layers equal to the recorded depths |
| Collapse.VisitKeepsWalk | solve.py:338-342 | visiting a new group keeps the walk invariant |
| Collapse.VisitKeepsRecord | solve.py:338 | the seen set stays equal to the recorded groups, none of them done, the start at depth 0 |
| Collapse.WalkEnd | solve.py:330-342 | when the stack is empty the seen groups form a whole component outside the done groups, hanging from the start |
| Collapse.UnseenShrinks | solve.py:336-338 | seeing a new group shrinks the set of unseen groups |
| Collapse.PopStep | solve.py:331-342 | one pass keeps the walk invariant and either sees a new group or shortens the stack |
| Collapse.VisitGroup | solve.py:338-342 | a newly popped group is seen at the depth it was pushed with |
| Collapse.LayerComponent | solve.py:326-342 | the walk from a group yields its whole component (apart from done groups), layered by a parent tree |
| Collapse.SplitParity | solve.py:344-349 | even holds exactly the groups of the even layers, odd those of the odd layers |
| Collapse.ParitySplit | solve.py:344-352 | even and odd are the groups of even and odd depth; they never intersect, so the check at line 351 never fires |
| Collapse.ExtendAt | solve.py:354-361 | the even half gets the next id, the odd half the one after, both with the same id / 2 |
| Collapse.AddNumbered | solve.py:354-361 | appending the two halves keeps ids, member sets and shapes (Knob then Socket) consistent |
| Collapse.AddSameComponent | solve.py:326-361 | neighbouring groups end with the same group-group id / 2 |
| Collapse.ComponentParity | solve.py:326-349 | under any colouring of the group graph, a group has the start's colour exactly when its depth is even |
| Collapse.AddRootedParity | solve.py:344-361 | a group-group id is even exactly when its groups have the component root's colour |
| Collapse.OppositeParity | solve.py:354-361 | neighbouring groups get ids of opposite parity whenever the group graph is 2-colourable |
| Collapse.ComponentLinked | solve.py:322-342 | every group of a walked component is itself a key of group_connections |
| Collapse.SkipGroup | solve.py:322-324 | a group already coloured is passed over |
| Collapse.AddComponent | solve.py:322-361 | colouring a new component keeps the colouring invariant of the third step |
| Collapse.AddForest | solve.py:322-361 | colouring the component walked from a new group grows the spanning forest: that group is root k with id 2k, the rest hang from parents one layer up |
| Collapse.AddForestRoots | solve.py:354-361 | the new component's root gets id 2k at depth 0; earlier roots keep theirs |
| Collapse.AddForestIds | solve.py:344-361 | every coloured group's id has the parity of its depth, and its id / 2 names its component |
| Collapse.AddForestParents | solve.py:338-361 | every parent is a coloured neighbour one layer up with the same id / 2 |
| Collapse.RootWalks | solve.py:326-342 | walks of links lead from each coloured group to its component's root and back |
| Collapse.WalkSameId | solve.py:326-342 | a walk of links never changes id / 2 |
| Collapse.ComponentsReachable | solve.py:319-361 | two coloured groups share id / 2 exactly when a walk of links joins them |
| Collapse.ColouredAll | solve.py:319-361 | every group with links is coloured; under any 2-colouring of the graph neighbours get different shapes |
| Collapse.ColourFrom | solve.py:322-361 | one pass of the third step always succeeds and keeps its invariant and the spanning forest |
| Collapse.ColourGroups | solve.py:319-361 | the third step never returns False and numbers exactly the linked groups. Component k's root gets id 2k. Ids are even exactly at even depth in the walk's forest. Two groups share id / 2 exactly when a walk of links joins them. Neighbours get different shapes when the graph is bipartite |
| Collapse.AssignGroup | solve.py:366-369 | every edge of the group gets group id / 2 and the group-group's shape |
| Collapse.AssignGroupGroup | solve.py:365-369 | every edge of every group of the group-group is written |
| Collapse.AssignShapes | solve.py:363-369 | whatever the order of the sets, the arena ends as the assignment function describes |
| Collapse.InducedColouring | solve.py:311-317 | an edge colouring induces a 2-colouring of the group graph |
| Collapse.LinkColours | solve.py:311-317 | the two ends of a link have different colours |
| Collapse.LiftedColouring | solve.py:311-317 | a 2-colouring of the group graph lifts to an edge colouring, so one exists exactly when the graph is bipartite |
| Collapse.ShapesColour | solve.py:363-369 | a cut with opposite shapes across seams is itself an edge colouring |
| Collapse.LinkedSeams | solve.py:311-317 | every seam is a link of the group graph |
| Collapse.CutAt | solve.py:363-369 | every connected edge gets a group and a Knob or Socket shape, and its partner gets the same group |
| Collapse.AssignedCollapsed | solve.py:363-371 | the final arena is a consistent cut |
| Collapse.AssignedKeeps | solve.py:363-369 | the writes change no connection or merge set and leave unconnected edges untouched |
| Collapse.AssignedCut | solve.py:363-369 | every connected edge and its partner get the same group, and a shape other than Flat |
| Collapse.GroupsColoured | solve.py:319-361 | every group holding an edge is coloured |
| Collapse.AssignedMerged | solve.py:363-369 | merged edges get the same group and shape |
| Collapse.MergedAlike | solve.py:363-369 | one merged pair gets the same group and shape |
| Collapse.AssignedOpposite | solve.py:354-369 | under a 2-colouring of the group graph the two sides of every seam get opposite shapes |
| Collapse.WalkKeepsGroup | solve.py:363-369 | in a consistent cut, a walk of merges and connections keeps the group number |
| Collapse.LiftWalk | solve.py:311-317 | a walk of links between groups lifts to a walk of edges between any of their members |
| Collapse.SameGroupJoined | solve.py:363-369 | two connected edges given one group number are joined by a walk |
| Collapse.AssignedJoined | solve.py:363-369 | two connected edges share a group number exactly when a walk of merges and connections joins them |
| Collapse.CutItself | solve.py:363-371 | a cut arena keeps its merges and connections, so it is a consistent cut of itself with the same components |
| Collapse.CutCollapsed | solve.py:363-371 | the written arena is a consistent cut and every grouped edge is coloured |
| Collapse.CutOpposite | solve.py:354-369 | given an edge colouring, the two sides of every seam get opposite shapes |
| Collapse.CutGroups | solve.py:319-371 | the last two steps return True with a consistent cut whose group numbers name the components |
| Collapse.CollapseEdges | solve.py:282-371 | collapse_edges returns True with a consistent cut. Two connected edges share a group number exactly when a walk of merges and connections joins them. Seams get opposite shapes whenever the edges admit a 2-colouring |
| Walks.JoinedTrans | solve.py:296-304 | walks of merges and connections compose |
| Walks.JoinedSameLinks | solve.py:363-369 | arenas with the same merges and connections join the same edges |
| Walks.ReachableTrans | solve.py:330-342 | walks of links between groups compose |
| Jigsaw.Board.constructor | solve.py:70-91 | W x H pieces numbered in row order with the border rotations, and 4*W*H fresh edges |
| Jigsaw.Board.ConnectEdges | solve.py:122-136 | refuses exactly when both indices are equal; otherwise the two edges point at each other and nothing else changes |
| Jigsaw.Board.ConnectPieces | solve.py:138-156 | connects the facing slots of two adjacent pieces, refusing exactly when they are one slot; never refuses when piece ids are distinct |
| Jigsaw.Board.ConnectDirection | solve.py:201-209 | one direction of one cell extends the wiring |
| Jigsaw.Board.ConnectAdjacentEdges | solve.py:196-211 | returns True with the solved board's wiring, a symmetric pairing, and no group, shape or merge set |
| Jigsaw.Board.SwapPieces | solve.py:158-166 | exchanges the pieces at the two cells and nothing else |
| Jigsaw.Board.Swap | solve.py:168-194 | returns True exactly when the open-slot counts agree; the pieces become the swap's result and the edges are untouched |
| Jigsaw.Board.CycleThree | solve.py:238-239 | a border triple keeps the placement invariant |
| Jigsaw.Board.CycleThreeAndTurn | solve.py:255-258 | an interior triple with its re-rotation keeps the placement invariant |
| Jigsaw.Board.CenterStep | solve.py:249-258 | one interior triple advances the interior pass |
| Jigsaw.Board.BorderPass | solve.py:232-239 | the border loop yields the border pass's result and keeps the placement invariant |
| Jigsaw.Board.CenterPass | solve.py:249-258 | the interior loop yields the interior pass's result and keeps the placement invariant |
| Jigsaw.Board.Shuffle | solve.py:213-258 | shuffle never trips its asserts. It keeps the placement invariant and permutes the pieces. Afterwards unconnected slots face exactly outwards |
| Jigsaw.Board.MergeDirection | solve.py:265-280 | one direction of one cell extends the merged seams |
| Jigsaw.Board.MergeCell | solve.py:262-280 | one cell's four directions extend the merged seams |
| Jigsaw.Board.MergeRow | solve.py:261-280 | one row extends the merged seams |
| Jigsaw.Board.MergeEdges | solve.py:260-280 | every seam is merged, and only seams |
| Jigsaw.Board.CollapseEdges | solve.py:282-371 | returns True with a consistent cut whose group numbers name the components of merges and connections; seams get opposite shapes whenever the edges admit a 2-colouring |
| Jigsaw.Board.CheckAllUnique | solve.py:373-388 | returns True exactly when no two pieces have the same sequence of (group, shape) on their slots |
| Jigsaw.Attempt | solve.py:438-447 | the board keeps the solved wiring. Its pieces are the shuffle of the initial pieces under that wiring. Its arena is a consistent cut of itself: merged edges alike, both sides of a seam in one group, group numbers naming components. Unconnected edges stay Flat. It is accepted exactly when all signatures differ |
| Jigsaw.WiringKept | solve.py:441-445 | merging and collapsing change no connection, so the solved wiring survives |
| Jigsaw.BlocksInArena | solve.py:379 | every piece's slice of four slots lies inside the arena |
| Jigsaw.SignaturesHold | solve.py:374-386 | the set built so far holds exactly the signatures of the pieces already seen |
| Jigsaw.ConnectKeepsWiring | solve.py:208 | connecting one seam extends the wiring by that direction |
| Jigsaw.SkipOutside | solve.py:205-206 | a direction leaving the board wires nothing |
| Jigsaw.ConnectKeepsMarks | solve.py:133-134 | connecting changes no group, shape or merge set |
| Jigsaw.ConnectedSlot | solve.py:133-134 | connecting touches only the two slots of the seam, and leaves each pointing at its home target |
| Jigsaw.NextCell | solve.py:197-201 | finishing a cell's four directions moves on to the next cell |
| Jigsaw.WiredAll | solve.py:196-211 | after the loops every slot has its solved-board connection |
| Jigsaw.CycleAllStep | solve.py:232-239 | the border pass is the first triple followed by the pass over the rest |
| Jigsaw.CycleAndTurnFromStart | solve.py:249 | the interior loop starts with the whole interior pass still to do |
| Jigsaw.CycleAndTurnFromEnd | solve.py:252-253 | fewer than three cells left ends the interior loop |
| Jigsaw.CycleAndTurnFromStep | solve.py:249-258 | one turned triple followed by the rest is the rest of the interior pass |
| Jigsaw.CycleAndTurnFromAll | solve.py:249-258 | the loop's remainder equals the interior pass over the remaining cells and turns |

## Left out

- Randomness: `random.shuffle` (lines 230, 247) and `random.choice` (line 258) are parameters. The orderings must be rearrangements of the source's lists, and there must be one rotation per full triple.
- The retry loop `while True` in `main` (line 437) is left out: `Jigsaw.Attempt` models one pass of it. A loop until an attempt is accepted need not terminate, so it has no total model.
- Rendering (`edge_str`, `piece_str`, `board_str`), printing in `main` and `cli` are output formatting and are left out.
- `corner_indices` is never called and is left out. It also mixes up width and height.
- Object identity: edges refer to each other by arena index rather than by reference. Python's `Edge` hashes by identity, which indices reproduce.
- Set iteration order in Python is fixed but not specified. `Collapse.Enumerate` yields the members in an order the model never relies on, so every property holds for every order.
- `EDGE_COUNT` is fixed at 4 throughout.
- The list-building loops of `shuffle` (lines 214-228, 241-245) are modelled as functions (`Shuffling.BorderCells`, `Shuffling.CenterCells`). The swap loops are modelled as methods.
- Jigsaw.Board.CollapseEdges: opposite shapes on the two sides of a seam are proved only when the arena admits an edge 2-colouring. The model does not prove that every shuffled board admits one. The source's own check (line 351) cannot detect its absence, because even and odd layers never share a group.
- Collapse.CollapseEdges, Jigsaw.Board.CollapseEdges: which half of a component is cut Knob (even depth below the component's root) is stated on `Collapse.ColourGroups` for groups, not restated for edges.
- Collapse.ColourGroups: the roots, depths and parents that witness the numbering are ghost results. The source keeps only the layers of the current walk.
- Jigsaw.Board.ConnectPieces: that it never refuses is stated only when piece ids are distinct. This holds for every board the constructor builds.
- Jigsaw.Board.MergeEdges: requires that a slot is unconnected exactly when it faces outside. The source would fail on a `None` connection otherwise, and `Jigsaw.Board.Shuffle` establishes this.
- Jigsaw.Board.ConnectAdjacentEdges, Jigsaw.Board.ConnectDirection: require the constructor's piece list and fresh edges, which is how `main` calls them.
- Jigsaw.Board.Shuffle, Jigsaw.Board.CycleThree, Jigsaw.Board.CenterPass: require the solved board's wiring and the placement invariant, which is how `main` calls them. The source's `assert self.swap(...)` is proved to hold under these conditions.
- The `assert` statements in the constructor and in `connect_pieces` (lines 71-72, 139) become preconditions. The unreachable branch at line 151 becomes a total choice of directions.
