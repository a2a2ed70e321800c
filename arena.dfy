/** The board's state as values: the list of pieces and the arena of 4*W*H
    edges, addressed by index. Predicates here are the invariants the board
    keeps from one stage of a generation attempt to the next. */
module Arena {
  import opened Grid

  /** One quarter-side of a piece. `connection` is the edge on the other side of
      the seam (set once, when the solved board is wired); `merges` holds the
      edges forced to end with the same group and shape. */
  datatype Edge = Edge(group: Option<nat>, shape: Shape, connection: Option<nat>, merges: set<nat>)

  const FreshEdge: Edge := Edge(None, Flat, None, {})

  /** One piece per cell, and every piece owns the block of four slots
      starting at 4 * id. */
  predicate Layout(W: nat, H: nat, pieces: seq<Piece>) {
    && W > 1 && H > 1 && |pieces| == W * H
    && (forall k :: 0 <= k < |pieces| ==> pieces[k].edges == 4 * pieces[k].id && pieces[k].id < W * H)
  }

  /** No two pieces share an id, so no two share a block of slots. */
  predicate DistinctIds(pieces: seq<Piece>) {
    forall k, l :: 0 <= k < l < |pieces| ==> pieces[k].id != pieces[l].id
  }

  /** The constructor numbers the pieces 0, 1, 2, ... */
  lemma InitialDistinct(W: nat, H: nat)
    requires W > 0
    ensures DistinctIds(InitialPieces(W, H))
  {
  }

  /** All indices stored in edges point into the arena. */
  predicate Indexed(edges: seq<Edge>) {
    forall e :: 0 <= e < |edges| ==>
      && (edges[e].connection.Some? ==> edges[e].connection.value < |edges|)
      && (forall m :: m in edges[e].merges ==> m < |edges|)
  }

  predicate Connected(edges: seq<Edge>, e: int)
    requires 0 <= e < |edges|
  {
    edges[e].connection.Some?
  }

  /** Connection is a symmetric, total-on-its-domain pairing of edges. */
  predicate ConnectionsSymmetric(edges: seq<Edge>) {
    forall e :: 0 <= e < |edges| && edges[e].connection.Some? ==>
      edges[e].connection.value < |edges| && edges[edges[e].connection.value].connection == Some(e)
  }

  /** The merge relation is symmetric and only relates connected edges. */
  predicate MergesWellFormed(edges: seq<Edge>) {
    forall e :: 0 <= e < |edges| ==>
      forall m :: m in edges[e].merges ==>
        m < |edges| && e in edges[m].merges && edges[e].connection.Some? && edges[m].connection.Some?
  }

  /** No edge has been given a group or a cut shape yet. */
  predicate Unmarked(edges: seq<Edge>) {
    forall e :: 0 <= e < |edges| ==> edges[e].group == None && edges[e].shape == Flat
  }

  /** A knob/socket 2-colouring of the edges: merged edges get the same colour
      and the two sides of a connection get different colours. It exists
      exactly when the graph of merge groups is bipartite. */
  predicate EdgeColouring(edges: seq<Edge>, col: seq<bool>) {
    && |col| == |edges|
    && (forall e :: 0 <= e < |edges| ==> forall m :: m in edges[e].merges && m < |edges| ==> col[e] == col[m])
    && (forall e :: 0 <= e < |edges| && edges[e].connection.Some? && edges[e].connection.value < |edges| ==>
          col[e] != col[edges[e].connection.value])
  }

  /** get_edge_index stays inside the block of the piece standing at p. */
  lemma EdgeIndexInBlock(W: nat, H: nat, pieces: seq<Piece>, p: Position, d: Direction)
    requires Layout(W, H, pieces) && InBounds(W, H, p)
    ensures 4 * pieces[PieceIndex(W, H, p)].id <= EdgeIndex(W, H, pieces, p, d) < 4 * pieces[PieceIndex(W, H, p)].id + 4
    ensures EdgeIndex(W, H, pieces, p, d) < 4 * (W * H)
  {
  }

  /** Different (position, direction) pairs address different slots. */
  lemma EdgeIndexInjective(W: nat, H: nat, pieces: seq<Piece>, p: Position, d: Direction, q: Position, e: Direction)
    requires Layout(W, H, pieces) && DistinctIds(pieces) && InBounds(W, H, p) && InBounds(W, H, q)
    ensures EdgeIndex(W, H, pieces, p, d) == EdgeIndex(W, H, pieces, q, e) ==> p == q && d == e
  {
    var k, l := PieceIndex(W, H, p), PieceIndex(W, H, q);
    PieceIndexInjective(W, H, p, q);
    if k != l {
      assert pieces[k].id != pieces[l].id by {
        if k < l {
        } else {
        }
      }
    }
    SlotInjective(pieces[k].rotation, d, e);
  }

  /** The connection every slot of the solved board gets: the facing slot of the
      neighbour, or none on the outer boundary. */
  function HomeTarget(W: nat, H: nat, p: Position, d: Direction): Option<nat>
    requires InBounds(W, H, p)
  {
    if InBounds(W, H, Step(p, d)) then Some(HomeSlot(W, H, Step(p, d), d.Inverse())) else None
  }

  /** The connections of the board as built and wired by connect_adjacent_edges. */
  ghost predicate Wired(W: nat, H: nat, edges: seq<Edge>) {
    && |edges| == 4 * (W * H)
    && forall p, d :: InBounds(W, H, p) ==>
        HomeSlot(W, H, p, d) < |edges| && edges[HomeSlot(W, H, p, d)].connection == HomeTarget(W, H, p, d)
  }

  /** The wiring of the solved board is a symmetric pairing. */
  lemma WiredSymmetric(W: nat, H: nat, edges: seq<Edge>)
    requires W > 0 && Wired(W, H, edges)
    ensures ConnectionsSymmetric(edges)
  {
    forall s | 0 <= s < |edges| && edges[s].connection.Some?
      ensures edges[s].connection.value < |edges| && edges[edges[s].connection.value].connection == Some(s)
    {
      var p, d := HomeSlotOnto(W, H, s);
      var q := Step(p, d);
      InverseUndoesStep(p, d);
      HomeSlotBijective(W, H, q, d.Inverse(), q, d.Inverse());
    }
  }

  /** Where the piece standing at p may have come from. A corner never moves;
      any other border cell holds a piece from some non-corner border cell and
      keeps the rotation the constructor chose for the cell; an interior cell
      holds a piece from some interior cell, turned any way. */
  ghost predicate PlacedWell(W: nat, H: nat, pieces: seq<Piece>, p: Position)
    requires Layout(W, H, pieces) && InBounds(W, H, p)
  {
    var k := PieceIndex(W, H, p);
    var origin := PositionOf(W, pieces[k].id);
    && (IsCorner(W, H, p) ==> pieces[k] == InitialPiece(W, H, k))
    && (IsSide(W, H, p) ==> IsSide(W, H, origin) && pieces[k].rotation == InitialRotation(W, H, p))
    && (!IsBorder(W, H, p) ==> !IsBorder(W, H, origin))
  }

  /** The invariant the shuffle keeps. */
  ghost predicate Arranged(W: nat, H: nat, pieces: seq<Piece>) {
    Layout(W, H, pieces) && forall p :: InBounds(W, H, p) ==> PlacedWell(W, H, pieces, p)
  }

  /** The pieces as the constructor lays them out satisfy both invariants. */
  lemma InitialArranged(W: nat, H: nat)
    requires W > 1 && H > 1
    ensures Layout(W, H, InitialPieces(W, H)) && Arranged(W, H, InitialPieces(W, H))
  {
    var ps := InitialPieces(W, H);
    forall p | InBounds(W, H, p) ensures PlacedWell(W, H, ps, p) {
      PositionOfIndex(W, H, p);
    }
  }

  /** Number of slots of the piece at p that have no connection (the sum in swap). */
  function OpenSlots(W: nat, H: nat, pieces: seq<Piece>, edges: seq<Edge>, p: Position): nat
    requires Layout(W, H, pieces) && |edges| == 4 * (W * H) && InBounds(W, H, p)
  {
    OpenAmong(W, H, pieces, edges, p, 4)
  }

  /** The unconnected slots of p among its first n directions, in the order
      Up, Right, Down, Left. */
  function OpenAmong(W: nat, H: nat, pieces: seq<Piece>, edges: seq<Edge>, p: Position, n: nat): nat
    requires Layout(W, H, pieces) && |edges| == 4 * (W * H) && InBounds(W, H, p) && n <= 4
  {
    if n == 0 then 0
    else
      var d := DirectionOf(n - 1);
      EdgeIndexInBlock(W, H, pieces, p, d);
      OpenAmong(W, H, pieces, edges, p, n - 1) + (if edges[EdgeIndex(W, H, pieces, p, d)].connection == None then 1 else 0)
  }

  /** A slot is unconnected exactly when it faces outside the grid. */
  ghost predicate OpenExactlyOutside(W: nat, H: nat, pieces: seq<Piece>, edges: seq<Edge>)
    requires Layout(W, H, pieces) && |edges| == 4 * (W * H)
  {
    forall p, d :: InBounds(W, H, p) ==>
      EdgeIndex(W, H, pieces, p, d) < |edges|
      && (edges[EdgeIndex(W, H, pieces, p, d)].connection.None? <==> !InBounds(W, H, Step(p, d)))
  }

  /** With the solved board's wiring, any arrangement the shuffle can reach has
      its unconnected slots facing exactly outwards. */
  lemma OpenAt(W: nat, H: nat, pieces: seq<Piece>, edges: seq<Edge>, p: Position, d: Direction)
    requires Arranged(W, H, pieces) && Wired(W, H, edges) && InBounds(W, H, p)
    ensures EdgeIndex(W, H, pieces, p, d) < |edges|
    ensures edges[EdgeIndex(W, H, pieces, p, d)].connection.None? <==> !InBounds(W, H, Step(p, d))
  {
    EdgeIndexInBlock(W, H, pieces, p, d);
    var k := PieceIndex(W, H, p);
    var piece := pieces[k];
    assert PlacedWell(W, H, pieces, p);
    IndexOfPosition(W, H, piece.id);
    var origin := PositionOf(W, piece.id);
    var offset := Slot(piece.rotation, d);
    var d' := DirectionAt(InitialRotation(W, H, origin), offset);
    assert EdgeIndex(W, H, pieces, p, d) == HomeSlot(W, H, origin, d');
    if IsCorner(W, H, p) {
      PositionOfIndex(W, H, p);
      SlotInjective(piece.rotation, d, d');
    } else if IsBorder(W, H, p) {
      SideFacesOutAtThree(W, H, p, d);
      SideFacesOutAtThree(W, H, origin, d');
    } else {
      InteriorHasNoOutside(W, H, p, d);
      InteriorHasNoOutside(W, H, origin, d');
    }
  }

  lemma ArrangedWiredOpen(W: nat, H: nat, pieces: seq<Piece>, edges: seq<Edge>)
    requires Arranged(W, H, pieces) && Wired(W, H, edges)
    ensures OpenExactlyOutside(W, H, pieces, edges)
  {
    forall p, d | InBounds(W, H, p)
      ensures EdgeIndex(W, H, pieces, p, d) < |edges|
      ensures edges[EdgeIndex(W, H, pieces, p, d)].connection.None? <==> !InBounds(W, H, Step(p, d))
    {
      OpenAt(W, H, pieces, edges, p, d);
    }
  }

  /** Under that invariant the count swap compares is the number of outside
      neighbours of the position: 2 at a corner, 1 on a side, 0 inside. */
  lemma OpenSlotsCountOutside(W: nat, H: nat, pieces: seq<Piece>, edges: seq<Edge>, p: Position)
    requires Layout(W, H, pieces) && |edges| == 4 * (W * H) && InBounds(W, H, p)
    requires OpenExactlyOutside(W, H, pieces, edges)
    ensures OpenSlots(W, H, pieces, edges, p) == OutsideCount(W, H, p)
    ensures OpenSlots(W, H, pieces, edges, p) == if IsCorner(W, H, p) then 2 else if IsBorder(W, H, p) then 1 else 0
  {
    var up, right := if InBounds(W, H, Step(p, Up)) then 0 else 1, if InBounds(W, H, Step(p, Right)) then 0 else 1;
    var down, left := if InBounds(W, H, Step(p, Down)) then 0 else 1, if InBounds(W, H, Step(p, Left)) then 0 else 1;
    assert OpenAmong(W, H, pieces, edges, p, 1) == up;
    assert OpenAmong(W, H, pieces, edges, p, 2) == up + right;
    assert OpenAmong(W, H, pieces, edges, p, 3) == up + right + down;
    assert OpenAmong(W, H, pieces, edges, p, 4) == up + right + down + left;
    OutsideCountByClass(W, H, p);
  }
}
