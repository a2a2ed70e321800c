/** Geometry of a W x H jigsaw board: directions, rotations, positions, and the
    map from a (position, direction) pair to one of the board's 4*W*H edge slots. */
module Grid {

  datatype Option<T> = None | Some(value: T)

  datatype Shape = Flat | Knob | Socket

  /** The four ways a piece can be turned; the value says how many slots the
      piece's edge block is shifted by. */
  datatype Rotation = R0 | R90 | R180 | R270 {
    function Value(): nat {
      match this
      case R0 => 0
      case R90 => 1
      case R180 => 2
      case R270 => 3
    }
  }

  datatype Direction = Up | Right | Down | Left {
    function Value(): nat {
      match this
      case Up => 0
      case Right => 1
      case Down => 2
      case Left => 3
    }

    /** The (row, column) step towards the neighbour in this direction. */
    function Delta(): (int, int) {
      match this
      case Up => (-1, 0)
      case Down => (1, 0)
      case Right => (0, 1)
      case Left => (0, -1)
    }

    function Inverse(): Direction {
      match this
      case Up => Down
      case Down => Up
      case Right => Left
      case Left => Right
    }
  }

  /** The k-th direction in declaration order (Up, Right, Down, Left). */
  function DirectionOf(k: nat): (d: Direction)
    requires k < 4
    ensures d.Value() == k
  {
    if k == 0 then Up else if k == 1 then Right else if k == 2 then Down else Left
  }

  /** Stepping to the neighbour and back by the inverse direction returns home;
      the inverse is an involution and never the direction itself. */
  lemma InverseUndoesStep(p: Position, d: Direction)
    ensures Step(Step(p, d), d.Inverse()) == p
    ensures d.Inverse().Inverse() == d && d.Inverse() != d
    ensures d.Inverse().Value() == (d.Value() + 2) % 4
  {
  }

  /** A position is (row, column). */
  type Position = (int, int)

  function Step(p: Position, d: Direction): Position {
    (p.0 + d.Delta().0, p.1 + d.Delta().1)
  }

  function Abs(x: int): nat {
    if x < 0 then -x else x
  }

  /** Manhattan distance one. */
  predicate IsAdjacent(a: Position, b: Position) {
    Abs(a.0 - b.0) + Abs(a.1 - b.1) == 1
  }

  /** Adjacent positions are exactly those one step apart. */
  lemma AdjacentIffStep(a: Position, b: Position)
    ensures IsAdjacent(a, b) <==> exists d: Direction :: Step(a, d) == b
  {
    if IsAdjacent(a, b) {
      var d := if a.0 < b.0 then Down else if a.0 > b.0 then Up else if a.1 < b.1 then Right else Left;
      assert Step(a, d) == b;
    }
  }

  predicate InBounds(W: int, H: int, p: Position) {
    0 <= p.0 < H && 0 <= p.1 < W
  }

  /** Row-major index of an in-bounds position. */
  function PieceIndex(W: nat, H: nat, p: Position): (k: nat)
    requires InBounds(W, H, p)
    ensures k < W * H
  {
    RowMajorBelow(W, H, p.0, p.1);
    p.0 * W + p.1
  }

  /** The position whose row-major index is k. */
  function PositionOf(W: nat, k: nat): Position
    requires W > 0
  {
    (k / W, k % W)
  }

  lemma {:induction false} MulMonotone(a: nat, b: nat, w: nat)
    requires a <= b
    ensures a * w <= b * w
    decreases b - a
  {
    if a < b {
      MulMonotone(a, b - 1, w);
      assert (b - 1) * w + w == b * w;
    }
  }

  lemma RowMajorBelow(W: nat, H: nat, r: nat, c: nat)
    requires r < H && c < W
    ensures r * W + c < W * H
  {
    MulMonotone(r + 1, H, W);
    assert (r + 1) * W == r * W + W;
  }

  lemma RowMajorDivMod(W: nat, r: nat, c: nat)
    requires c < W
    ensures (r * W + c) / W == r && (r * W + c) % W == c
  {
    var k := r * W + c;
    var q, m := k / W, k % W;
    assert k == q * W + m;
    if q < r {
      MulMonotone(q + 1, r, W);
    } else if q > r {
      MulMonotone(r + 1, q, W);
    }
  }

  /** PieceIndex and PositionOf are inverse bijections between the in-bounds
      positions and [0, W*H). */
  lemma PositionOfIndex(W: nat, H: nat, p: Position)
    requires InBounds(W, H, p)
    ensures PositionOf(W, PieceIndex(W, H, p)) == p
  {
    RowMajorDivMod(W, p.0, p.1);
  }

  lemma IndexOfPosition(W: nat, H: nat, k: nat)
    requires W > 0 && k < W * H
    ensures InBounds(W, H, PositionOf(W, k))
    ensures PieceIndex(W, H, PositionOf(W, k)) == k
  {
    var q, m := k / W, k % W;
    assert k == q * W + m;
    if q >= H {
      MulMonotone(H, q, W);
    }
  }

  lemma PieceIndexInjective(W: nat, H: nat, p: Position, q: Position)
    requires InBounds(W, H, p) && InBounds(W, H, q)
    ensures PieceIndex(W, H, p) == PieceIndex(W, H, q) ==> p == q
  {
    PositionOfIndex(W, H, p);
    PositionOfIndex(W, H, q);
  }

  /** The rotation the constructor gives the piece at p: the top row is turned
      by 270, then the right column by 180, then the bottom row by 90. */
  function InitialRotation(W: int, H: int, p: Position): Rotation {
    if p.0 == 0 then R270
    else if p.1 == W - 1 then R180
    else if p.0 == H - 1 then R90
    else R0
  }

  /** A piece: its identity, the index of the first of its four consecutive
      edge slots, and its rotation. */
  datatype Piece = Piece(id: nat, edges: nat, rotation: Rotation)

  function InitialPiece(W: nat, H: nat, k: nat): Piece
    requires W > 0
  {
    Piece(k, 4 * k, InitialRotation(W, H, PositionOf(W, k)))
  }

  /** The pieces list as the constructor builds it, row by row. */
  function InitialPieces(W: nat, H: nat): seq<Piece>
    requires W > 0
  {
    seq(W * H, k requires 0 <= k => InitialPiece(W, H, k))
  }

  /** Offset, inside a piece's block of four slots, of the slot that faces d. */
  function Slot(r: Rotation, d: Direction): nat {
    (r.Value() + d.Value()) % 4
  }

  /** The direction whose slot is at the given offset. */
  function DirectionAt(r: Rotation, offset: nat): (d: Direction)
    requires offset < 4
    ensures Slot(r, d) == offset
  {
    DirectionOf((offset + 4 - r.Value()) % 4)
  }

  /** For a fixed rotation the four directions occupy four different slots. */
  lemma SlotInjective(r: Rotation, d: Direction, e: Direction)
    ensures Slot(r, d) < 4
    ensures Slot(r, d) == Slot(r, e) ==> d == e
  {
  }

  /** get_edge_index: the slot of the piece standing at p that faces d. */
  function EdgeIndex(W: nat, H: nat, pieces: seq<Piece>, p: Position, d: Direction): nat
    requires |pieces| == W * H && InBounds(W, H, p)
  {
    var piece := pieces[PieceIndex(W, H, p)];
    piece.edges + Slot(piece.rotation, d)
  }

  /** The slot at (p, d) on the board as built, before any shuffle. */
  function HomeSlot(W: nat, H: nat, p: Position, d: Direction): nat
    requires InBounds(W, H, p)
  {
    4 * PieceIndex(W, H, p) + Slot(InitialRotation(W, H, p), d)
  }

  lemma EdgeIndexInitial(W: nat, H: nat, p: Position, d: Direction)
    requires InBounds(W, H, p)
    ensures EdgeIndex(W, H, InitialPieces(W, H), p, d) == HomeSlot(W, H, p, d)
  {
    PositionOfIndex(W, H, p);
  }

  /** Every slot of the unshuffled board is the home slot of exactly one
      (position, direction) pair. */
  lemma HomeSlotBijective(W: nat, H: nat, p: Position, d: Direction, q: Position, e: Direction)
    requires InBounds(W, H, p) && InBounds(W, H, q)
    ensures HomeSlot(W, H, p, d) < 4 * (W * H)
    ensures HomeSlot(W, H, p, d) == HomeSlot(W, H, q, e) ==> p == q && d == e
  {
    PieceIndexInjective(W, H, p, q);
  }

  lemma HomeSlotOnto(W: nat, H: nat, s: nat) returns (p: Position, d: Direction)
    requires W > 0 && s < 4 * (W * H)
    ensures InBounds(W, H, p) && HomeSlot(W, H, p, d) == s
  {
    IndexOfPosition(W, H, s / 4);
    p := PositionOf(W, s / 4);
    d := DirectionAt(InitialRotation(W, H, p), s % 4);
  }

  predicate IsBorder(W: int, H: int, p: Position) {
    p.0 == 0 || p.0 == H - 1 || p.1 == 0 || p.1 == W - 1
  }

  predicate IsCorner(W: int, H: int, p: Position) {
    (p.0 == 0 || p.0 == H - 1) && (p.1 == 0 || p.1 == W - 1)
  }

  /** A border cell that is not a corner: it has exactly one outside neighbour. */
  predicate IsSide(W: int, H: int, p: Position) {
    IsBorder(W, H, p) && !IsCorner(W, H, p)
  }

  /** For every border cell that is not a corner, the rotation the constructor
      picks puts the outward-facing slot at offset 3. */
  lemma SideFacesOutAtThree(W: nat, H: nat, p: Position, d: Direction)
    requires W > 1 && H > 1 && InBounds(W, H, p) && IsSide(W, H, p)
    ensures Slot(InitialRotation(W, H, p), d) == 3 <==> !InBounds(W, H, Step(p, d))
  {
  }

  /** An interior cell has all four neighbours on the board. */
  lemma InteriorHasNoOutside(W: nat, H: nat, p: Position, d: Direction)
    requires InBounds(W, H, p) && !IsBorder(W, H, p)
    ensures InBounds(W, H, Step(p, d))
  {
  }

  /** The number of directions in which p has no neighbour on the board. */
  function OutsideCount(W: int, H: int, p: Position): nat {
    (if InBounds(W, H, Step(p, Up)) then 0 else 1)
    + (if InBounds(W, H, Step(p, Right)) then 0 else 1)
    + (if InBounds(W, H, Step(p, Down)) then 0 else 1)
    + (if InBounds(W, H, Step(p, Left)) then 0 else 1)
  }

  /** Corners have two outside neighbours, other border cells one, interior cells none. */
  lemma OutsideCountByClass(W: nat, H: nat, p: Position)
    requires W > 1 && H > 1 && InBounds(W, H, p)
    ensures OutsideCount(W, H, p) == if IsCorner(W, H, p) then 2 else if IsBorder(W, H, p) then 1 else 0
  {
  }

  /** The two directions connect_pieces uses for neighbours a and b: the one
      from a towards b and its inverse. */
  function Facing(a: Position, b: Position): (Direction, Direction)
    requires IsAdjacent(a, b)
  {
    if a.0 < b.0 then (Down, Up)
    else if a.0 > b.0 then (Up, Down)
    else if a.1 < b.1 then (Right, Left)
    else if a.1 > b.1 then (Left, Right)
    else assert false; (Up, Up)
  }

  /** For neighbours the first facing direction leads from a to b and the
      second is its inverse. */
  lemma FacingStep(a: Position, d: Direction)
    ensures IsAdjacent(a, Step(a, d))
    ensures Facing(a, Step(a, d)) == (d, d.Inverse())
  {
  }
}
