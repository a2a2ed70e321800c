/** What Board.shuffle does, as functions of the pieces list: the two cell
    lists it cycles through, the effect of one guarded swap, and the two
    passes over consecutive triples. Randomness is replaced by the caller's
    orderings of the two lists and the caller's rotation choices. */
module Shuffling {
  import opened Grid
  import opened Arena

  /** Cells (i, j) for j in [lo, hi), leaving out the cell with i == j. */
  function RowRun(i: int, lo: int, hi: int): seq<Position>
    decreases hi - lo
  {
    if lo >= hi then [] else (if i == lo then [] else [(i, lo)]) + RowRun(i, lo + 1, hi)
  }

  /** Cells (i, j) for i in [lo, hi), leaving out the cell with i == j. */
  function ColumnRun(j: int, lo: int, hi: int): seq<Position>
    decreases hi - lo
  {
    if lo >= hi then [] else (if lo == j then [] else [(lo, j)]) + ColumnRun(j, lo + 1, hi)
  }

  /** The border list shuffle builds: top and bottom rows without their corners,
      then left and right columns without their corners, each loop skipping the
      cell whose row equals its column. */
  function BorderCells(W: int, H: int): seq<Position> {
    RowRun(0, 1, W - 1) + RowRun(H - 1, 1, W - 1) + ColumnRun(0, 1, H - 1) + ColumnRun(W - 1, 1, H - 1)
  }

  /** Cells (i, j) for j in [lo, hi). */
  function FullRow(i: int, lo: int, hi: int): seq<Position>
    decreases hi - lo
  {
    if lo >= hi then [] else [(i, lo)] + FullRow(i, lo + 1, hi)
  }

  /** Rows [lo, hi) of the interior, each from column 1 to W - 2. */
  function CenterRows(lo: int, hi: int, W: int): seq<Position>
    decreases hi - lo
  {
    if lo >= hi then [] else FullRow(lo, 1, W - 1) + CenterRows(lo + 1, hi, W)
  }

  /** The interior list shuffle builds, row by row. */
  function CenterCells(W: int, H: int): seq<Position> {
    CenterRows(1, H - 1, W)
  }

  lemma {:induction false} RowRunMembers(i: int, lo: int, hi: int, p: Position)
    ensures p in RowRun(i, lo, hi) <==> p.0 == i && lo <= p.1 < hi && p.1 != i
    decreases hi - lo
  {
    if lo < hi {
      RowRunMembers(i, lo + 1, hi, p);
    }
  }

  lemma {:induction false} ColumnRunMembers(j: int, lo: int, hi: int, p: Position)
    ensures p in ColumnRun(j, lo, hi) <==> p.1 == j && lo <= p.0 < hi && p.0 != j
    decreases hi - lo
  {
    if lo < hi {
      ColumnRunMembers(j, lo + 1, hi, p);
    }
  }

  lemma {:induction false} FullRowMembers(i: int, lo: int, hi: int, p: Position)
    ensures p in FullRow(i, lo, hi) <==> p.0 == i && lo <= p.1 < hi
    decreases hi - lo
  {
    if lo < hi {
      FullRowMembers(i, lo + 1, hi, p);
    }
  }

  lemma {:induction false} CenterRowsMembers(lo: int, hi: int, W: int, p: Position)
    ensures p in CenterRows(lo, hi, W) <==> lo <= p.0 < hi && 1 <= p.1 < W - 1
    decreases hi - lo
  {
    if lo < hi {
      FullRowMembers(lo, 1, W - 1, p);
      CenterRowsMembers(lo + 1, hi, W, p);
    }
  }

  /** The border list holds exactly the non-corner border cells whose row
      differs from their column: the i == j test drops the side cell
      (H-1, H-1) or (W-1, W-1) whenever that cell is on the border. */
  lemma BorderCellsExactly(W: nat, H: nat, p: Position)
    requires W > 1 && H > 1
    ensures p in BorderCells(W, H) <==> InBounds(W, H, p) && IsSide(W, H, p) && p.0 != p.1
  {
    RowRunMembers(0, 1, W - 1, p);
    RowRunMembers(H - 1, 1, W - 1, p);
    ColumnRunMembers(0, 1, H - 1, p);
    ColumnRunMembers(W - 1, 1, H - 1, p);
  }

  /** The interior list holds exactly the cells off the border. */
  lemma CenterCellsExactly(W: nat, H: nat, p: Position)
    requires W > 1 && H > 1
    ensures p in CenterCells(W, H) <==> InBounds(W, H, p) && !IsBorder(W, H, p)
  {
    CenterRowsMembers(1, H - 1, W, p);
  }

  /** The pieces list after swap(a, b): unchanged when the two positions have
      different numbers of unconnected slots; otherwise the entries trade
      places, and when that number is positive the rotations are exchanged
      first, so each position keeps its own rotation. */
  function SwapResult(W: nat, H: nat, pieces: seq<Piece>, edges: seq<Edge>, a: Position, b: Position): (r: seq<Piece>)
    requires Layout(W, H, pieces) && |edges| == 4 * (W * H) && InBounds(W, H, a) && InBounds(W, H, b)
    ensures Layout(W, H, r)
  {
    var ka, kb := PieceIndex(W, H, a), PieceIndex(W, H, b);
    var n := OpenSlots(W, H, pieces, edges, a);
    if n != OpenSlots(W, H, pieces, edges, b) then pieces
    else if n > 0 then
      pieces[ka := pieces[kb].(rotation := pieces[ka].rotation)][kb := pieces[ka].(rotation := pieces[kb].rotation)]
    else
      pieces[ka := pieces[kb]][kb := pieces[ka]]
  }

  /** swap(a, b) followed by swap(a, c). */
  function CycleTriple(W: nat, H: nat, pieces: seq<Piece>, edges: seq<Edge>, a: Position, b: Position, c: Position): (r: seq<Piece>)
    requires Layout(W, H, pieces) && |edges| == 4 * (W * H)
    requires InBounds(W, H, a) && InBounds(W, H, b) && InBounds(W, H, c)
    ensures Layout(W, H, r)
  {
    SwapResult(W, H, SwapResult(W, H, pieces, edges, a, b), edges, a, c)
  }

  predicate AllInBounds(W: int, H: int, order: seq<Position>) {
    forall i :: 0 <= i < |order| ==> InBounds(W, H, order[i])
  }

  /** The border pass: one 3-cycle per full triple of the ordering; a trailing
      partial triple is left alone. */
  function CycleAll(W: nat, H: nat, pieces: seq<Piece>, edges: seq<Edge>, order: seq<Position>): (r: seq<Piece>)
    requires Layout(W, H, pieces) && |edges| == 4 * (W * H) && AllInBounds(W, H, order)
    ensures Layout(W, H, r)
    decreases |order|
  {
    if |order| < 3 then pieces
    else CycleAll(W, H, CycleTriple(W, H, pieces, edges, order[0], order[1], order[2]), edges, order[3..])
  }

  /** One pass of the interior loop: the 3-cycle, then rotation r for the
      piece now on the triple's first cell. */
  function CycleTripleTurned(W: nat, H: nat, pieces: seq<Piece>, edges: seq<Edge>, a: Position, b: Position, c: Position, r: Rotation): (res: seq<Piece>)
    requires Layout(W, H, pieces) && |edges| == 4 * (W * H)
    requires InBounds(W, H, a) && InBounds(W, H, b) && InBounds(W, H, c)
    ensures Layout(W, H, res)
  {
    var cycled := CycleTriple(W, H, pieces, edges, a, b, c);
    var k := PieceIndex(W, H, a);
    TurnKeepsLayout(W, H, cycled, k, r);
    cycled[k := cycled[k].(rotation := r)]
  }

  /** The interior pass: like the border pass, and after each 3-cycle the piece
      now at the triple's first cell gets the next chosen rotation. */
  function CycleAndTurnAll(W: nat, H: nat, pieces: seq<Piece>, edges: seq<Edge>, order: seq<Position>, turns: seq<Rotation>): (r: seq<Piece>)
    requires Layout(W, H, pieces) && |edges| == 4 * (W * H) && AllInBounds(W, H, order)
    requires 3 * |turns| + 2 >= |order|  // one rotation per full triple
    ensures Layout(W, H, r)
    decreases |order|
  {
    if |order| < 3 then pieces
    else
      CycleAndTurnAll(W, H, CycleTripleTurned(W, H, pieces, edges, order[0], order[1], order[2], turns[0]), edges, order[3..], turns[1..])
  }

  lemma TurnKeepsLayout(W: nat, H: nat, pieces: seq<Piece>, k: nat, r: Rotation)
    requires Layout(W, H, pieces) && k < |pieces|
    ensures Layout(W, H, pieces[k := pieces[k].(rotation := r)])
  {
    var turned := pieces[k := pieces[k].(rotation := r)];
    assert forall i :: 0 <= i < |pieces| ==> turned[i].id == pieces[i].id && turned[i].edges == pieces[i].edges;
  }

  /** The ids along the pieces list. */
  function Ids(pieces: seq<Piece>): seq<nat> {
    seq(|pieces|, k requires 0 <= k < |pieces| => pieces[k].id)
  }

  predicate AllSide(W: int, H: int, order: seq<Position>) {
    forall i :: 0 <= i < |order| ==> InBounds(W, H, order[i]) && IsSide(W, H, order[i])
  }

  predicate AllInterior(W: int, H: int, order: seq<Position>) {
    forall i :: 0 <= i < |order| ==> InBounds(W, H, order[i]) && !IsBorder(W, H, order[i])
  }

  /** Any rearrangement of the border list holds side cells only. */
  lemma BorderOrderSide(W: nat, H: nat, order: seq<Position>)
    requires W > 1 && H > 1 && multiset(order) == multiset(BorderCells(W, H))
    ensures AllSide(W, H, order) && AllInBounds(W, H, order)
  {
    forall i | 0 <= i < |order| ensures InBounds(W, H, order[i]) && IsSide(W, H, order[i]) {
      assert order[i] in multiset(order);
      BorderCellsExactly(W, H, order[i]);
    }
  }

  /** Any rearrangement of the interior list holds interior cells only. */
  lemma CenterOrderInterior(W: nat, H: nat, order: seq<Position>)
    requires W > 1 && H > 1 && multiset(order) == multiset(CenterCells(W, H))
    ensures AllInterior(W, H, order) && AllInBounds(W, H, order)
  {
    forall i | 0 <= i < |order| ensures InBounds(W, H, order[i]) && !IsBorder(W, H, order[i]) {
      assert order[i] in multiset(order);
      CenterCellsExactly(W, H, order[i]);
    }
  }

  /** Two cells of the same kind: both sides, or both interior. */
  predicate SameKind(W: int, H: int, a: Position, b: Position) {
    (IsSide(W, H, a) && IsSide(W, H, b)) || (!IsBorder(W, H, a) && !IsBorder(W, H, b))
  }

  /** The guard in swap always passes for two cells of the same kind, so the
      asserts around the swaps in shuffle hold. */
  lemma SwapSucceeds(W: nat, H: nat, pieces: seq<Piece>, edges: seq<Edge>, a: Position, b: Position)
    requires Arranged(W, H, pieces) && Wired(W, H, edges)
    requires InBounds(W, H, a) && InBounds(W, H, b) && SameKind(W, H, a, b)
    ensures OpenSlots(W, H, pieces, edges, a) == OpenSlots(W, H, pieces, edges, b)
  {
    ArrangedWiredOpen(W, H, pieces, edges);
    OpenSlotsCountOutside(W, H, pieces, edges, a);
    OpenSlotsCountOutside(W, H, pieces, edges, b);
  }

  /** Apart from the two swapped cells, swap changes no entry. */
  lemma SwapElsewhere(W: nat, H: nat, pieces: seq<Piece>, edges: seq<Edge>, a: Position, b: Position, p: Position)
    requires Layout(W, H, pieces) && |edges| == 4 * (W * H)
    requires InBounds(W, H, a) && InBounds(W, H, b) && InBounds(W, H, p) && p != a && p != b
    ensures SwapResult(W, H, pieces, edges, a, b)[PieceIndex(W, H, p)] == pieces[PieceIndex(W, H, p)]
  {
    PieceIndexInjective(W, H, p, a);
    PieceIndexInjective(W, H, p, b);
  }

  /** swap either changes nothing (the counts differ) or trades the two
      entries: with a positive count each position keeps its own rotation,
      with a zero count the rotation travels with the piece. */
  lemma SwapTrades(W: nat, H: nat, pieces: seq<Piece>, edges: seq<Edge>, a: Position, b: Position)
    requires Layout(W, H, pieces) && |edges| == 4 * (W * H) && InBounds(W, H, a) && InBounds(W, H, b)
    ensures var r, ka, kb := SwapResult(W, H, pieces, edges, a, b), PieceIndex(W, H, a), PieceIndex(W, H, b);
      var n := OpenSlots(W, H, pieces, edges, a);
      && (n != OpenSlots(W, H, pieces, edges, b) ==> r == pieces)
      && (n == OpenSlots(W, H, pieces, edges, b) ==>
            && r[ka].id == pieces[kb].id && r[kb].id == pieces[ka].id
            && r[ka].edges == pieces[kb].edges && r[kb].edges == pieces[ka].edges
            && (n > 0 ==> r[ka].rotation == pieces[ka].rotation && r[kb].rotation == pieces[kb].rotation)
            && (n == 0 ==> r[ka] == pieces[kb] && r[kb] == pieces[ka]))
  {
  }

  /** A successful swap of two cells of the same kind keeps the shuffle
      invariant: a side cell receives a piece from a side cell and keeps its
      rotation, an interior cell receives a piece from an interior cell. */
  lemma SwapKeepsArranged(W: nat, H: nat, pieces: seq<Piece>, edges: seq<Edge>, a: Position, b: Position)
    requires Arranged(W, H, pieces) && Wired(W, H, edges)
    requires InBounds(W, H, a) && InBounds(W, H, b) && SameKind(W, H, a, b)
    ensures Arranged(W, H, SwapResult(W, H, pieces, edges, a, b))
  {
    var r := SwapResult(W, H, pieces, edges, a, b);
    SwapSucceeds(W, H, pieces, edges, a, b);
    ArrangedWiredOpen(W, H, pieces, edges);
    OpenSlotsCountOutside(W, H, pieces, edges, a);
    assert PlacedWell(W, H, pieces, a) && PlacedWell(W, H, pieces, b);
    forall p | InBounds(W, H, p) ensures PlacedWell(W, H, r, p) {
      assert PlacedWell(W, H, pieces, p);
      if p != a && p != b {
        SwapElsewhere(W, H, pieces, edges, a, b, p);
      } else {
        PieceIndexInjective(W, H, a, b);
      }
    }
  }

  /** A successful swap only exchanges entries, so the ids are rearranged. */
  lemma SwapPermutesIds(W: nat, H: nat, pieces: seq<Piece>, edges: seq<Edge>, a: Position, b: Position)
    requires Layout(W, H, pieces) && |edges| == 4 * (W * H) && InBounds(W, H, a) && InBounds(W, H, b)
    ensures multiset(Ids(SwapResult(W, H, pieces, edges, a, b))) == multiset(Ids(pieces))
  {
    var r := SwapResult(W, H, pieces, edges, a, b);
    var ka, kb := PieceIndex(W, H, a), PieceIndex(W, H, b);
    var ids := Ids(pieces);
    if r != pieces {
      assert Ids(r) == ids[ka := ids[kb]][kb := ids[ka]];
    }
  }

  lemma CycleTripleKeepsArranged(W: nat, H: nat, pieces: seq<Piece>, edges: seq<Edge>, a: Position, b: Position, c: Position)
    requires Arranged(W, H, pieces) && Wired(W, H, edges)
    requires InBounds(W, H, a) && InBounds(W, H, b) && InBounds(W, H, c)
    requires SameKind(W, H, a, b) && SameKind(W, H, a, c)
    ensures Arranged(W, H, CycleTriple(W, H, pieces, edges, a, b, c))
    ensures multiset(Ids(CycleTriple(W, H, pieces, edges, a, b, c))) == multiset(Ids(pieces))
  {
    SwapKeepsArranged(W, H, pieces, edges, a, b);
    SwapPermutesIds(W, H, pieces, edges, a, b);
    var mid := SwapResult(W, H, pieces, edges, a, b);
    SwapKeepsArranged(W, H, mid, edges, a, c);
    SwapPermutesIds(W, H, mid, edges, a, c);
  }

  /** Turning the piece at an interior cell keeps the invariant and the ids. */
  lemma TurnKeepsArranged(W: nat, H: nat, pieces: seq<Piece>, p: Position, r: Rotation)
    requires Arranged(W, H, pieces) && InBounds(W, H, p) && !IsBorder(W, H, p)
    ensures Arranged(W, H, pieces[PieceIndex(W, H, p) := pieces[PieceIndex(W, H, p)].(rotation := r)])
    ensures Ids(pieces[PieceIndex(W, H, p) := pieces[PieceIndex(W, H, p)].(rotation := r)]) == Ids(pieces)
  {
    var k := PieceIndex(W, H, p);
    var turned := pieces[k := pieces[k].(rotation := r)];
    TurnKeepsLayout(W, H, pieces, k, r);
    forall q | InBounds(W, H, q) ensures PlacedWell(W, H, turned, q) {
      assert PlacedWell(W, H, pieces, q);
      PieceIndexInjective(W, H, p, q);
    }
  }

  /** The border pass keeps the invariant and rearranges the ids. */
  lemma {:induction false} CycleAllKeepsArranged(W: nat, H: nat, pieces: seq<Piece>, edges: seq<Edge>, order: seq<Position>)
    requires Arranged(W, H, pieces) && Wired(W, H, edges) && AllSide(W, H, order)
    ensures AllInBounds(W, H, order)
    ensures Arranged(W, H, CycleAll(W, H, pieces, edges, order))
    ensures multiset(Ids(CycleAll(W, H, pieces, edges, order))) == multiset(Ids(pieces))
    decreases |order|
  {
    if |order| >= 3 {
      CycleTripleKeepsArranged(W, H, pieces, edges, order[0], order[1], order[2]);
      var cycled := CycleTriple(W, H, pieces, edges, order[0], order[1], order[2]);
      CycleAllKeepsArranged(W, H, cycled, edges, order[3..]);
    }
  }

  /** The interior pass keeps the invariant and rearranges the ids. */
  lemma {:induction false} CycleAndTurnAllKeepsArranged(W: nat, H: nat, pieces: seq<Piece>, edges: seq<Edge>, order: seq<Position>, turns: seq<Rotation>)
    requires Arranged(W, H, pieces) && Wired(W, H, edges) && AllInterior(W, H, order)
    requires 3 * |turns| + 2 >= |order|
    ensures AllInBounds(W, H, order)
    ensures Arranged(W, H, CycleAndTurnAll(W, H, pieces, edges, order, turns))
    ensures multiset(Ids(CycleAndTurnAll(W, H, pieces, edges, order, turns))) == multiset(Ids(pieces))
    decreases |order|
  {
    if |order| >= 3 {
      CycleTripleKeepsArranged(W, H, pieces, edges, order[0], order[1], order[2]);
      var cycled := CycleTriple(W, H, pieces, edges, order[0], order[1], order[2]);
      TurnKeepsArranged(W, H, cycled, order[0], turns[0]);
      CycleAndTurnAllKeepsArranged(W, H, CycleTripleTurned(W, H, pieces, edges, order[0], order[1], order[2], turns[0]), edges, order[3..], turns[1..]);
    }
  }

  /** The cells the pass actually visits: the full triples of the ordering. */
  function Visited(order: seq<Position>): seq<Position> {
    order[..|order| / 3 * 3]
  }

  lemma NotVisited(order: seq<Position>, cells: seq<Position>, p: Position)
    requires multiset(order) == multiset(cells) && p !in cells
    ensures p !in Visited(order)
  {
    assert p !in multiset(order);
    assert order == Visited(order) + order[|order| / 3 * 3..];
  }

  /** A cell outside the visited prefix keeps its entry through the border pass. */
  lemma {:induction false} CycleAllUntouched(W: nat, H: nat, pieces: seq<Piece>, edges: seq<Edge>, order: seq<Position>, p: Position)
    requires Layout(W, H, pieces) && |edges| == 4 * (W * H) && AllInBounds(W, H, order)
    requires InBounds(W, H, p) && p !in Visited(order)
    ensures CycleAll(W, H, pieces, edges, order)[PieceIndex(W, H, p)] == pieces[PieceIndex(W, H, p)]
    decreases |order|
  {
    if |order| >= 3 {
      assert Visited(order) == order[..3] + Visited(order[3..]);
      SwapElsewhere(W, H, pieces, edges, order[0], order[1], p);
      SwapElsewhere(W, H, SwapResult(W, H, pieces, edges, order[0], order[1]), edges, order[0], order[2], p);
      CycleAllUntouched(W, H, CycleTriple(W, H, pieces, edges, order[0], order[1], order[2]), edges, order[3..], p);
    }
  }

  /** A cell outside the visited prefix keeps its entry through the interior pass. */
  lemma {:induction false} CycleAndTurnAllUntouched(W: nat, H: nat, pieces: seq<Piece>, edges: seq<Edge>, order: seq<Position>, turns: seq<Rotation>, p: Position)
    requires Layout(W, H, pieces) && |edges| == 4 * (W * H) && AllInBounds(W, H, order)
    requires 3 * |turns| + 2 >= |order|
    requires InBounds(W, H, p) && p !in Visited(order)
    ensures CycleAndTurnAll(W, H, pieces, edges, order, turns)[PieceIndex(W, H, p)] == pieces[PieceIndex(W, H, p)]
    decreases |order|
  {
    if |order| >= 3 {
      assert Visited(order) == order[..3] + Visited(order[3..]);
      SwapElsewhere(W, H, pieces, edges, order[0], order[1], p);
      var cycled := CycleTriple(W, H, pieces, edges, order[0], order[1], order[2]);
      SwapElsewhere(W, H, SwapResult(W, H, pieces, edges, order[0], order[1]), edges, order[0], order[2], p);
      var k := PieceIndex(W, H, order[0]);
      PieceIndexInjective(W, H, p, order[0]);
      CycleAndTurnAllUntouched(W, H, CycleTripleTurned(W, H, pieces, edges, order[0], order[1], order[2], turns[0]), edges, order[3..], turns[1..], p);
    }
  }

  /** The whole of shuffle, given the two orderings and the rotation choices. */
  function ShuffleResult(W: nat, H: nat, pieces: seq<Piece>, edges: seq<Edge>,
                         borderOrder: seq<Position>, centerOrder: seq<Position>, turns: seq<Rotation>): (r: seq<Piece>)
    requires Layout(W, H, pieces) && |edges| == 4 * (W * H)
    requires AllInBounds(W, H, borderOrder) && AllInBounds(W, H, centerOrder) && |turns| >= |centerOrder| / 3
    ensures Layout(W, H, r)
  {
    CycleAndTurnAll(W, H, CycleAll(W, H, pieces, edges, borderOrder), edges, centerOrder, turns)
  }

  /** What shuffle guarantees on a wired board: the pieces are rearranged, the
      invariant holds (so unconnected slots still face exactly outwards), and
      the corners and the cells left out of the border list keep their entries. */
  lemma ShuffleKeepsArranged(W: nat, H: nat, pieces: seq<Piece>, edges: seq<Edge>,
                             borderOrder: seq<Position>, centerOrder: seq<Position>, turns: seq<Rotation>)
    requires Arranged(W, H, pieces) && Wired(W, H, edges)
    requires multiset(borderOrder) == multiset(BorderCells(W, H))
    requires multiset(centerOrder) == multiset(CenterCells(W, H))
    requires |turns| >= |centerOrder| / 3
    ensures AllInBounds(W, H, borderOrder) && AllInBounds(W, H, centerOrder)
    ensures Arranged(W, H, ShuffleResult(W, H, pieces, edges, borderOrder, centerOrder, turns))
    ensures multiset(Ids(ShuffleResult(W, H, pieces, edges, borderOrder, centerOrder, turns))) == multiset(Ids(pieces))
    ensures OpenExactlyOutside(W, H, ShuffleResult(W, H, pieces, edges, borderOrder, centerOrder, turns), edges)
    ensures forall p :: InBounds(W, H, p) && (IsCorner(W, H, p) || (IsSide(W, H, p) && p.0 == p.1)) ==>
      ShuffleResult(W, H, pieces, edges, borderOrder, centerOrder, turns)[PieceIndex(W, H, p)] == pieces[PieceIndex(W, H, p)]
  {
    BorderOrderSide(W, H, borderOrder);
    CenterOrderInterior(W, H, centerOrder);
    CycleAllKeepsArranged(W, H, pieces, edges, borderOrder);
    var mid := CycleAll(W, H, pieces, edges, borderOrder);
    CycleAndTurnAllKeepsArranged(W, H, mid, edges, centerOrder, turns);
    var r := ShuffleResult(W, H, pieces, edges, borderOrder, centerOrder, turns);
    ArrangedWiredOpen(W, H, r, edges);
    forall p | InBounds(W, H, p) && (IsCorner(W, H, p) || (IsSide(W, H, p) && p.0 == p.1))
      ensures r[PieceIndex(W, H, p)] == pieces[PieceIndex(W, H, p)]
    {
      BorderCellsExactly(W, H, p);
      CenterCellsExactly(W, H, p);
      NotVisited(borderOrder, BorderCells(W, H), p);
      NotVisited(centerOrder, CenterCells(W, H), p);
      CycleAllUntouched(W, H, pieces, edges, borderOrder, p);
      CycleAndTurnAllUntouched(W, H, mid, edges, centerOrder, turns, p);
    }
  }
}
