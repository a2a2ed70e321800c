/** The Board: a W x H grid of pieces over an arena of 4*W*H edges, and the
    stages of one generation attempt (build, wire, shuffle, merge, collapse,
    check). The pieces and edges lists are sequence fields that the methods
    reassign; an update of an Edge or Piece object's field is the replacement
    of its (only) slot in the list. */
module Jigsaw {
  import opened Grid
  import opened Arena
  import opened Shuffling
  import opened Collapse
  import opened Merging

  /** The connections made so far while the solved board is wired, cell by
      cell in row-major order and direction by direction: a slot holds either
      no connection or the one the solved board gives it, and every slot of a
      cell before k, and of cell k in a direction before dv, is done. Nothing
      but connections has been written. */
  ghost predicate WiredUpTo(W: nat, H: nat, edges: seq<Edge>, k: nat, dv: nat) {
    && |edges| == 4 * (W * H)
    && (forall p, d :: InBounds(W, H, p) ==>
          && HomeSlot(W, H, p, d) < |edges|
          && (edges[HomeSlot(W, H, p, d)].connection.Some? ==> edges[HomeSlot(W, H, p, d)].connection == HomeTarget(W, H, p, d))
          && (PieceIndex(W, H, p) < k || (PieceIndex(W, H, p) == k && d.Value() < dv) ==>
                edges[HomeSlot(W, H, p, d)].connection == HomeTarget(W, H, p, d)))
    && (forall e :: 0 <= e < |edges| ==> edges[e].group == None && edges[e].shape == Flat && edges[e].merges == {})
  }

  class Board {
    const width: nat
    const height: nat
    var pieces: seq<Piece>
    var edges: seq<Edge>

    /** One piece per cell, every piece owns the block of four slots at
        4 * id, and the arena has four slots per piece. */
    ghost predicate Valid()
      reads this
    {
      Layout(width, height, pieces) && |edges| == 4 * (width * height)
    }

    /** The constructor lays the pieces out row by row: the k-th gets id k,
        the block of four fresh edges starting at 4k, and the rotation its
        cell calls for (top row R270, then right column R180, then bottom row
        R90, otherwise R0). */
    constructor (W: nat, H: nat)
      requires W > 1 && H > 1
      ensures width == W && height == H && Valid()
      ensures pieces == InitialPieces(W, H)
      ensures |edges| == 4 * (W * H) && forall e :: 0 <= e < |edges| ==> edges[e] == FreshEdge
    {
      width, height := W, H;
      pieces, edges := [], [];
      new;
      for i := 0 to H
        invariant |pieces| == i * W
        invariant forall k :: 0 <= k < |pieces| ==> pieces[k] == InitialPiece(W, H, k)
        invariant |edges| == 4 * |pieces| && forall e :: 0 <= e < |edges| ==> edges[e] == FreshEdge
      {
        for j := 0 to W
          invariant |pieces| == i * W + j
          invariant forall k :: 0 <= k < |pieces| ==> pieces[k] == InitialPiece(W, H, k)
          invariant |edges| == 4 * |pieces| && forall e :: 0 <= e < |edges| ==> edges[e] == FreshEdge
        {
          var rotation;
          if i == 0 {
            rotation := R270;
          } else if j == W - 1 {
            rotation := R180;
          } else if i == H - 1 {
            rotation := R90;
          } else {
            rotation := R0;
          }
          var pieceIndex, pieceEdges := |pieces|, |edges|;
          ghost var built := pieces;
          for n := 0 to 4
            invariant pieces == built
            invariant |edges| == pieceEdges + n && forall e :: 0 <= e < |edges| ==> edges[e] == FreshEdge
          {
            edges := edges + [FreshEdge];
          }
          RowMajorDivMod(W, i, j);
          pieces := pieces + [Piece(pieceIndex, pieceEdges, rotation)];
        }
        assert i * W + W == (i + 1) * W;
      }
      assert H * W == W * H;
      InitialArranged(W, H);
    }

    /** connect_edges: the two edges become each other's connection, unless
        they are the same edge, which is refused. */
    method ConnectEdges(from: nat, to: nat) returns (ok: bool)
      requires from < |edges| && to < |edges|
      modifies this
      ensures ok <==> from != to
      ensures pieces == old(pieces)
      ensures edges == if ok then old(edges)[from := old(edges)[from].(connection := Some(to))][to := old(edges)[to].(connection := Some(from))]
                       else old(edges)
    {
      if from == to {
        return false;
      }
      edges := edges[from := edges[from].(connection := Some(to))];
      edges := edges[to := edges[to].(connection := Some(from))];
      return true;
    }

    /** connect_pieces: connects the slot of a facing b with the slot of b
        facing a. When no two pieces share an id the two slots lie in
        different blocks, so the connection is never refused. */
    method ConnectPieces(a: Position, b: Position) returns (ok: bool)
      requires Valid() && InBounds(width, height, a) && InBounds(width, height, b) && IsAdjacent(a, b)
      modifies this
      ensures Valid() && pieces == old(pieces)
      ensures DistinctIds(pieces) ==> ok
      ensures var from, to := EdgeIndex(width, height, pieces, a, Facing(a, b).0), EdgeIndex(width, height, pieces, b, Facing(a, b).1);
        && from < |edges| && to < |edges| && (ok <==> from != to)
        && edges == if ok then old(edges)[from := old(edges)[from].(connection := Some(to))][to := old(edges)[to].(connection := Some(from))]
                    else old(edges)
    {
      var directions := Facing(a, b);
      var from := EdgeIndex(width, height, pieces, a, directions.0);
      var to := EdgeIndex(width, height, pieces, b, directions.1);
      EdgeIndexInBlock(width, height, pieces, a, directions.0);
      EdgeIndexInBlock(width, height, pieces, b, directions.1);
      if DistinctIds(pieces) {
        EdgeIndexInjective(width, height, pieces, a, directions.0, b, directions.1);
      }
      ok := ConnectEdges(from, to);
    }

    /** One pass of connect_adjacent_edges' innermost loop: the slot of cell
        (i, j) facing the dv-th direction is connected to its neighbour's
        facing slot, when there is a neighbour. */
    method ConnectDirection(i: nat, j: nat, dv: nat) returns (ok: bool)
      requires Valid() && pieces == InitialPieces(width, height)
      requires i < height && j < width && dv < 4
      requires WiredUpTo(width, height, edges, PieceIndex(width, height, (i, j)), dv)
      modifies this
      ensures ok && Valid() && pieces == old(pieces)
      ensures WiredUpTo(width, height, edges, PieceIndex(width, height, (i, j)), dv + 1)
    {
      var p, d := (i, j), DirectionOf(dv);
      var q := Step(p, d);
      if !InBounds(width, height, q) {
        SkipOutside(width, height, edges, PieceIndex(width, height, p), p, d);
        return true;
      }
      FacingStep(p, d);
      EdgeIndexInitial(width, height, p, d);
      EdgeIndexInitial(width, height, q, d.Inverse());
      ghost var before := edges;
      InitialDistinct(width, height);
      ok := ConnectPieces(p, q);
      ConnectKeepsWiring(width, height, before, edges, PieceIndex(width, height, p), p, d);
    }

    /** connect_adjacent_edges: every slot facing a neighbour is connected to
        the neighbour's facing slot. It never fails, and leaves the arena
        wired as the solved board: a slot is connected exactly when it faces
        a cell of the board, to that cell's slot facing back. */
    method ConnectAdjacentEdges() returns (ok: bool)
      requires Valid() && pieces == InitialPieces(width, height)
      requires forall e :: 0 <= e < |edges| ==> edges[e] == FreshEdge
      modifies this
      ensures ok && Valid() && pieces == old(pieces)
      ensures Wired(width, height, edges) && ConnectionsSymmetric(edges)
      ensures forall e :: 0 <= e < |edges| ==> edges[e].group == None && edges[e].shape == Flat && edges[e].merges == {}
    {
      forall p, d | InBounds(width, height, p) ensures HomeSlot(width, height, p, d) < |edges| {
        HomeSlotBijective(width, height, p, d, p, d);
      }
      assert WiredUpTo(width, height, edges, 0, 0);
      for i := 0 to height
        invariant Valid() && pieces == old(pieces)
        invariant WiredUpTo(width, height, edges, i * width, 0)
      {
        for j := 0 to width
          invariant Valid() && pieces == old(pieces)
          invariant WiredUpTo(width, height, edges, i * width + j, 0)
        {
          RowMajorBelow(width, height, i, j);
          for dv := 0 to 4
            invariant Valid() && pieces == old(pieces)
            invariant WiredUpTo(width, height, edges, i * width + j, dv)
          {
            ok := ConnectDirection(i, j, dv);
            if !ok {
              return false;
            }
          }
          NextCell(width, height, edges, i * width + j);
        }
        assert i * width + width == (i + 1) * width;
      }
      assert height * width == width * height;
      WiredAll(width, height, edges);
      WiredSymmetric(width, height, edges);
      ok := true;
    }
    /** swap_pieces: the entries at the two positions trade places. */
    method SwapPieces(a: Position, b: Position)
      requires |pieces| == width * height && InBounds(width, height, a) && InBounds(width, height, b)
      modifies this
      ensures edges == old(edges)
      ensures var ka, kb := PieceIndex(width, height, a), PieceIndex(width, height, b);
        pieces == old(pieces)[ka := old(pieces)[kb]][kb := old(pieces)[ka]]
    {
      var fpi := PieceIndex(width, height, a);
      var tpi := PieceIndex(width, height, b);
      pieces := pieces[fpi := pieces[tpi]][tpi := pieces[fpi]];
    }

    /** swap: refused, with nothing changed, when the two positions have
        different numbers of unconnected slots; otherwise the entries trade
        places, and when that number is positive the rotations are exchanged
        first, so that each position keeps its rotation. */
    method Swap(a: Position, b: Position) returns (ok: bool)
      requires Valid() && InBounds(width, height, a) && InBounds(width, height, b)
      modifies this
      ensures Valid() && edges == old(edges)
      ensures ok <==> OpenSlots(width, height, old(pieces), edges, a) == OpenSlots(width, height, old(pieces), edges, b)
      ensures pieces == SwapResult(width, height, old(pieces), edges, a, b)
    {
      var fromCount := OpenSlots(width, height, pieces, edges, a);
      var toCount := OpenSlots(width, height, pieces, edges, b);
      if fromCount != toCount {
        return false;
      }
      if fromCount > 0 {
        var fromIndex, toIndex := PieceIndex(width, height, a), PieceIndex(width, height, b);
        var fromPiece, toPiece := pieces[fromIndex], pieces[toIndex];
        pieces := pieces[fromIndex := fromPiece.(rotation := toPiece.rotation)][toIndex := toPiece.(rotation := fromPiece.rotation)];
      }
      SwapPieces(a, b);
      return true;
    }

    /** The body of one pass of shuffle's loops: swap(a, b) and swap(a, c),
        both of which succeed, as the asserts around them demand. */
    method CycleThree(a: Position, b: Position, c: Position)
      requires Valid() && Arranged(width, height, pieces) && Wired(width, height, edges)
      requires InBounds(width, height, a) && InBounds(width, height, b) && InBounds(width, height, c)
      requires SameKind(width, height, a, b) && SameKind(width, height, a, c)
      modifies this
      ensures Valid() && Arranged(width, height, pieces) && edges == old(edges)
      ensures pieces == CycleTriple(width, height, old(pieces), edges, a, b, c)
    {
      SwapSucceeds(width, height, pieces, edges, a, b);
      SwapKeepsArranged(width, height, pieces, edges, a, b);
      var ok := Swap(a, b);
      assert ok;
      SwapSucceeds(width, height, pieces, edges, a, c);
      SwapKeepsArranged(width, height, pieces, edges, a, c);
      ok := Swap(a, c);
      assert ok;
    }

    /** The 3-cycle of a, b, c, then rotation r for the piece now on a. */
    method CycleThreeAndTurn(a: Position, b: Position, c: Position, r: Rotation)
      requires Valid() && Arranged(width, height, pieces) && Wired(width, height, edges)
      requires InBounds(width, height, a) && InBounds(width, height, b) && InBounds(width, height, c)
      requires !IsBorder(width, height, a) && SameKind(width, height, a, b) && SameKind(width, height, a, c)
      modifies this
      ensures Valid() && Arranged(width, height, pieces) && edges == old(edges)
      ensures pieces == CycleTripleTurned(width, height, old(pieces), edges, a, b, c, r)
    {
      CycleThree(a, b, c);
      TurnKeepsArranged(width, height, pieces, a, r);
      var k := PieceIndex(width, height, a);
      pieces := pieces[k := pieces[k].(rotation := r)];
    }

    /** The body of the pass of shuffle's interior loop at position i = 3t
        of the list: the triple there with the t-th rotation choice. What the
        rest of the pass would do from here is unchanged. */
    method CenterStep(order: seq<Position>, turns: seq<Rotation>, i: nat, t: nat, ghost goal: seq<Piece>)
      requires Valid() && Arranged(width, height, pieces) && Wired(width, height, edges)
      requires AllInterior(width, height, order) && AllInBounds(width, height, order)
      requires i + 3 <= |order| && i == 3 * t && 3 * |turns| + 2 >= |order|
      requires CycleAndTurnFrom(width, height, pieces, edges, order, turns, i, t) == goal
      modifies this
      ensures Valid() && Arranged(width, height, pieces) && edges == old(edges)
      ensures CycleAndTurnFrom(width, height, pieces, edges, order, turns, i + 3, t + 1) == goal
    {
      CycleAndTurnFromStep(width, height, pieces, edges, order, turns, i, t);
      var a, b, c := order[i], order[i + 1], order[i + 2];
      assert SameKind(width, height, a, b) && SameKind(width, height, a, c);
      CycleThreeAndTurn(a, b, c, turns[t]);
    }

    /** The border loop of shuffle: a 3-cycle per full triple of the list;
        a trailing partial triple ends the loop. */
    method BorderPass(order: seq<Position>)
      requires Valid() && Arranged(width, height, pieces) && Wired(width, height, edges)
      requires AllSide(width, height, order) && AllInBounds(width, height, order)
      modifies this
      ensures Valid() && Arranged(width, height, pieces) && edges == old(edges)
      ensures pieces == CycleAll(width, height, old(pieces), edges, order)
    {
      var i := 0;
      while i < |order|
        invariant i <= |order| && Valid() && Arranged(width, height, pieces) && edges == old(edges)
        invariant CycleAll(width, height, pieces, edges, order[i..]) == CycleAll(width, height, old(pieces), edges, order)
        decreases |order| - i
      {
        if i + 3 > |order| {
          break;
        }
        CycleAllStep(width, height, pieces, edges, order, i);
        assert SameKind(width, height, order[i], order[i + 1]) && SameKind(width, height, order[i], order[i + 2]);
        CycleThree(order[i], order[i + 1], order[i + 2]);
        i := i + 3;
      }
    }

    /** The interior loop of shuffle: like the border loop, and after each
        3-cycle the piece on the triple's first cell takes the next chosen
        rotation. */
    method CenterPass(order: seq<Position>, turns: seq<Rotation>)
      requires Valid() && Arranged(width, height, pieces) && Wired(width, height, edges)
      requires AllInterior(width, height, order) && AllInBounds(width, height, order)
      requires 3 * |turns| + 2 >= |order|
      modifies this
      ensures Valid() && Arranged(width, height, pieces) && edges == old(edges)
      ensures pieces == CycleAndTurnAll(width, height, old(pieces), edges, order, turns)
    {
      ghost var goal := CycleAndTurnFrom(width, height, pieces, edges, order, turns, 0, 0);
      CycleAndTurnFromStart(width, height, pieces, edges, order, turns);
      var i, t := 0, 0;
      while i + 3 <= |order|
        invariant i <= |order| && i == 3 * t && Valid() && Arranged(width, height, pieces) && edges == old(edges)
        invariant CycleAndTurnFrom(width, height, pieces, edges, order, turns, i, t) == goal
        decreases |order| - i
      {
        CenterStep(order, turns, i, t, goal);
        i, t := i + 3, t + 1;
      }
      CycleAndTurnFromEnd(width, height, pieces, edges, order, turns, i, t);
    }

    /** shuffle, given the shuffled border list, the shuffled interior list
        and the rotation chosen for each full interior triple. */
    method Shuffle(borderOrder: seq<Position>, centerOrder: seq<Position>, turns: seq<Rotation>)
      requires Valid() && Arranged(width, height, pieces) && Wired(width, height, edges)
      requires multiset(borderOrder) == multiset(BorderCells(width, height))
      requires multiset(centerOrder) == multiset(CenterCells(width, height))
      requires |turns| >= |centerOrder| / 3
      modifies this
      ensures Valid() && edges == old(edges)
      ensures AllInBounds(width, height, borderOrder) && AllInBounds(width, height, centerOrder)
      ensures pieces == ShuffleResult(width, height, old(pieces), edges, borderOrder, centerOrder, turns)
      ensures Arranged(width, height, pieces) && OpenExactlyOutside(width, height, pieces, edges)
      ensures multiset(Ids(pieces)) == multiset(Ids(old(pieces)))
    {
      BorderOrderSide(width, height, borderOrder);
      CenterOrderInterior(width, height, centerOrder);
      ShuffleKeepsArranged(width, height, pieces, edges, borderOrder, centerOrder, turns);
      BorderPass(borderOrder);
      CenterPass(centerOrder, turns);
    }

    /** One direction of one cell of merge_edges: when the neighbour is on the
        board, the slot facing it and the edge the neighbour's facing slot is
        connected to are added to each other's merges. */
    method MergeDirection(i: nat, j: nat, dv: nat, ghost before: seq<Edge>)
      requires Valid() && |before| == |edges| && OpenExactlyOutside(width, height, pieces, before)
      requires i < height && j < width && dv < 4
      requires MergedUpTo(width, height, pieces, before, edges, PieceIndex(width, height, (i, j)), dv)
      modifies this
      ensures Valid() && pieces == old(pieces)
      ensures MergedUpTo(width, height, pieces, before, edges, PieceIndex(width, height, (i, j)), dv + 1)
    {
      var p, d := (i, j), DirectionOf(dv);
      var q := Step(p, d);
      if !InBounds(width, height, q) {
        MergeSkipOutside(width, height, pieces, before, edges, p, d);
        return;
      }
      MergeSeamStep(width, height, pieces, before, edges, p, d, dv);
      EdgeIndexInBlock(width, height, pieces, p, d);
      EdgeIndexInBlock(width, height, pieces, q, d.Inverse());
      var fromIndex := EdgeIndex(width, height, pieces, p, d);
      var to := edges[EdgeIndex(width, height, pieces, q, d.Inverse())].connection.value;
      edges := edges[fromIndex := edges[fromIndex].(merges := edges[fromIndex].merges + {to})];
      edges := edges[to := edges[to].(merges := edges[to].merges + {fromIndex})];
    }

    /** The four directions of cell (i, j) in merge_edges. */
    method MergeCell(i: nat, j: nat, ghost before: seq<Edge>)
      requires Valid() && |before| == |edges| && OpenExactlyOutside(width, height, pieces, before)
      requires i < height && j < width
      requires MergedUpTo(width, height, pieces, before, edges, i * width + j, 0)
      modifies this
      ensures Valid() && pieces == old(pieces)
      ensures MergedUpTo(width, height, pieces, before, edges, i * width + j + 1, 0)
    {
      RowMajorBelow(width, height, i, j);
      for dv := 0 to 4
        invariant Valid() && pieces == old(pieces)
        invariant MergedUpTo(width, height, pieces, before, edges, i * width + j, dv)
      {
        MergeDirection(i, j, dv, before);
      }
      MergeNextCell(width, height, pieces, before, edges, i * width + j);
    }

    /** Row i of merge_edges, cell by cell. */
    method MergeRow(i: nat, ghost k: nat, ghost before: seq<Edge>)
      requires Valid() && |before| == |edges| && OpenExactlyOutside(width, height, pieces, before)
      requires i < height && k == i * width
      requires MergedUpTo(width, height, pieces, before, edges, k, 0)
      modifies this
      ensures Valid() && pieces == old(pieces)
      ensures MergedUpTo(width, height, pieces, before, edges, k + width, 0)
    {
      for j := 0 to width
        invariant Valid() && pieces == old(pieces)
        invariant MergedUpTo(width, height, pieces, before, edges, i * width + j, 0)
      {
        MergeCell(i, j, before);
      }
    }

    /** merge_edges: every seam of the shuffled board is recorded in both
        directions, and nothing but merges changes. The arena must connect
        every slot that faces a cell of the board (the source dereferences
        the connection). */
    method MergeEdges()
      requires Valid() && Indexed(edges) && OpenExactlyOutside(width, height, pieces, edges)
      modifies this
      ensures Valid() && pieces == old(pieces)
      ensures MergedSeams(width, height, pieces, old(edges), edges)
    {
      ghost var before := edges;
      MergeStart(width, height, pieces, before);
      ghost var k := 0;
      for i := 0 to height
        invariant Valid() && pieces == old(pieces) && k == i * width
        invariant MergedUpTo(width, height, pieces, before, edges, k, 0)
      {
        MergeRow(i, k, before);
        k := k + width;
      }
      MergedAll(width, height, pieces, before, edges);
    }

    /** collapse_edges on the board's arena: every connected edge gets a group
        and a cut shape, merged edges agree, and a seam's two sides share a
        group; when the arena admits an edge colouring, every seam joins a
        knob to a socket. */
    method CollapseEdges() returns (ok: bool)
      requires Valid() && MergesWellFormed(edges) && ConnectionsSymmetric(edges)
      modifies this
      ensures ok && Valid() && pieces == old(pieces)
      ensures Collapsed(old(edges), edges) && GroupedByJoins(old(edges), edges)
      ensures forall col :: EdgeColouring(old(edges), col) ==> SeamsOpposite(old(edges), edges)
    {
      ok, edges := Collapse.CollapseEdges(edges);
    }

    /** check_all_unique: true exactly when no two pieces show the same
        signature, the (group, shape) of each of their four slots in slot
        order. */
    method CheckAllUnique() returns (unique: bool)
      requires Valid()
      ensures unique <==> forall k, l :: 0 <= k < l < |pieces| ==>
        Signature(edges, pieces[k].edges) != Signature(edges, pieces[l].edges)
    {
      BlocksInArena(width, height, pieces, edges);
      var seen: set<seq<(Option<nat>, Shape)>> := {};
      for n := 0 to |pieces|
        invariant seen == Signatures(pieces, edges, n)
        invariant forall k, l :: 0 <= k < l < n ==> Signature(edges, pieces[k].edges) != Signature(edges, pieces[l].edges)
      {
        var piece := pieces[n];
        var signature := [];
        for o := 0 to 4
          invariant signature == Signature(edges, piece.edges)[..o]
        {
          signature := signature + [(edges[piece.edges + o].group, edges[piece.edges + o].shape)];
        }
        assert signature == Signature(edges, piece.edges);
        SignaturesHold(pieces, edges, n, signature);
        if signature in seen {
          return false;
        }
        seen := seen + {signature};
      }
      return true;
    }
  }

  /** One pass of main's retry loop: build the board, wire it as solved,
      shuffle, record the seams, collapse, and check that every piece is
      distinguishable; main retries until `accepted`. The shuffle's random
      choices are the orders and turns given; the collapse result is ignored,
      as in main. The board keeps the solved wiring, its pieces are the
      shuffle of the initial pieces under that wiring, and its arena is a
      consistent cut of itself: merged edges alike, the two sides of a seam in
      one group, and group numbers naming the components of merges and
      connections. */
  method Attempt(W: nat, H: nat, borderOrder: seq<Position>, centerOrder: seq<Position>, turns: seq<Rotation>)
      returns (board: Board, accepted: bool)
    requires W > 1 && H > 1
    requires multiset(borderOrder) == multiset(BorderCells(W, H))
    requires multiset(centerOrder) == multiset(CenterCells(W, H))
    requires |turns| >= |centerOrder| / 3
    ensures fresh(board) && board.width == W && board.height == H && board.Valid()
    ensures Arranged(W, H, board.pieces) && multiset(Ids(board.pieces)) == multiset(Ids(InitialPieces(W, H)))
    ensures Wired(W, H, board.edges)
    ensures AllInBounds(W, H, borderOrder) && AllInBounds(W, H, centerOrder) && Layout(W, H, InitialPieces(W, H))
    ensures exists wiring ::
      Wired(W, H, wiring) && board.pieces == ShuffleResult(W, H, InitialPieces(W, H), wiring, borderOrder, centerOrder, turns)
    ensures MergesWellFormed(board.edges) && ConnectionsSymmetric(board.edges)
    ensures Collapsed(board.edges, board.edges) && GroupedByJoins(board.edges, board.edges)
    ensures forall e :: 0 <= e < |board.edges| && board.edges[e].connection.None? ==>
      board.edges[e].group == None && board.edges[e].shape == Flat
    ensures accepted <==> forall k, l :: 0 <= k < l < |board.pieces| ==>
      Signature(board.edges, board.pieces[k].edges) != Signature(board.edges, board.pieces[l].edges)
  {
    board := new Board(W, H);
    InitialArranged(W, H);
    var wired := board.ConnectAdjacentEdges();
    ghost var wiring := board.edges;
    board.Shuffle(borderOrder, centerOrder, turns);
    ghost var shuffled := board.edges;
    assert Indexed(shuffled);
    board.MergeEdges();
    ghost var merged := board.edges;
    MergedWellFormed(W, H, board.pieces, shuffled, merged);
    var collapsed := board.CollapseEdges();
    CutItself(merged, board.edges);
    WiringKept(W, H, board.pieces, wiring, merged, board.edges);
    accepted := board.CheckAllUnique();
  }

  /** Merging and collapsing change no connection, so the arena stays wired
      as the solved board. */
  lemma WiringKept(W: nat, H: nat, pieces: seq<Piece>, wiring: seq<Edge>, merged: seq<Edge>, cut: seq<Edge>)
    requires Layout(W, H, pieces) && Wired(W, H, wiring) && MergedSeams(W, H, pieces, wiring, merged)
    requires MergesWellFormed(merged) && ConnectionsSymmetric(merged) && Collapsed(merged, cut)
    ensures Wired(W, H, cut)
  {
    forall p, d | InBounds(W, H, p) ensures HomeSlot(W, H, p, d) < |cut| && cut[HomeSlot(W, H, p, d)].connection == HomeTarget(W, H, p, d) {
      var e := HomeSlot(W, H, p, d);
      assert cut[e].connection == merged[e].connection == wiring[e].connection;
    }
  }

  /** The signature check_all_unique compares for the block starting at base. */
  function Signature(edges: seq<Edge>, base: nat): seq<(Option<nat>, Shape)>
    requires base + 4 <= |edges|
  {
    [(edges[base].group, edges[base].shape), (edges[base + 1].group, edges[base + 1].shape),
     (edges[base + 2].group, edges[base + 2].shape), (edges[base + 3].group, edges[base + 3].shape)]
  }

  /** Every piece's block of four slots lies in the arena. */
  predicate BlocksInside(pieces: seq<Piece>, edges: seq<Edge>) {
    forall k :: 0 <= k < |pieces| ==> pieces[k].edges + 4 <= |edges|
  }

  lemma BlocksInArena(W: nat, H: nat, pieces: seq<Piece>, edges: seq<Edge>)
    requires Layout(W, H, pieces) && |edges| == 4 * (W * H)
    ensures BlocksInside(pieces, edges)
  {
  }

  /** The set of signatures of the first n pieces, as check_all_unique has
      collected them. */
  function Signatures(pieces: seq<Piece>, edges: seq<Edge>, n: nat): set<seq<(Option<nat>, Shape)>>
    requires BlocksInside(pieces, edges) && n <= |pieces|
  {
    if n == 0 then {} else Signatures(pieces, edges, n - 1) + {Signature(edges, pieces[n - 1].edges)}
  }

  /** A signature has been collected exactly when one of the first n pieces shows it. */
  lemma {:induction false} SignaturesHold(pieces: seq<Piece>, edges: seq<Edge>, n: nat, s: seq<(Option<nat>, Shape)>)
    requires BlocksInside(pieces, edges) && n <= |pieces|
    ensures s in Signatures(pieces, edges, n) <==> exists k :: 0 <= k < n && Signature(edges, pieces[k].edges) == s
  {
    if n > 0 {
      SignaturesHold(pieces, edges, n - 1, s);
    }
  }

  /** Connecting the slot of p facing d with its neighbour's facing slot
      completes one more step of the wiring. */
  lemma ConnectKeepsWiring(W: nat, H: nat, before: seq<Edge>, after: seq<Edge>, k: nat, p: Position, d: Direction)
    requires InBounds(W, H, p) && InBounds(W, H, Step(p, d)) && k == PieceIndex(W, H, p)
    requires WiredUpTo(W, H, before, k, d.Value())
    requires var from, to := HomeSlot(W, H, p, d), HomeSlot(W, H, Step(p, d), d.Inverse());
      from < |before| && to < |before| &&
      after == before[from := before[from].(connection := Some(to))][to := before[to].(connection := Some(from))]
    ensures WiredUpTo(W, H, after, k, d.Value() + 1)
  {
    forall p', d' | InBounds(W, H, p')
      ensures HomeSlot(W, H, p', d') < |after|
      ensures after[HomeSlot(W, H, p', d')].connection.Some? ==> after[HomeSlot(W, H, p', d')].connection == HomeTarget(W, H, p', d')
      ensures PieceIndex(W, H, p') < k || (PieceIndex(W, H, p') == k && d'.Value() < d.Value() + 1) ==>
                after[HomeSlot(W, H, p', d')].connection == HomeTarget(W, H, p', d')
    {
      ConnectedSlot(W, H, before, after, p, d, p', d');
      PieceIndexInjective(W, H, p', p);
      if PieceIndex(W, H, p') == k && d'.Value() == d.Value() {
        assert d' == d;
      }
    }
    ConnectKeepsMarks(before, after, HomeSlot(W, H, p, d), HomeSlot(W, H, Step(p, d), d.Inverse()));
  }

  /** A slot facing outside the grid has nothing to connect: it is done as
      it stands. */
  lemma SkipOutside(W: nat, H: nat, edges: seq<Edge>, k: nat, p: Position, d: Direction)
    requires InBounds(W, H, p) && !InBounds(W, H, Step(p, d)) && k == PieceIndex(W, H, p)
    requires WiredUpTo(W, H, edges, k, d.Value())
    ensures WiredUpTo(W, H, edges, k, d.Value() + 1)
  {
    forall p': Position, d': Direction | InBounds(W, H, p') && PieceIndex(W, H, p') == k && d'.Value() == d.Value()
      ensures edges[HomeSlot(W, H, p', d')].connection == HomeTarget(W, H, p', d')
    {
      PieceIndexInjective(W, H, p', p);
      assert d' == d;
    }
  }

  /** Connecting two edges changes nothing but their connections. */
  lemma ConnectKeepsMarks(before: seq<Edge>, after: seq<Edge>, from: nat, to: nat)
    requires from < |before| && to < |before|
    requires after == before[from := before[from].(connection := Some(to))][to := before[to].(connection := Some(from))]
    ensures |after| == |before|
    ensures forall e :: 0 <= e < |after| ==>
      after[e].group == before[e].group && after[e].shape == before[e].shape && after[e].merges == before[e].merges
  {
  }

  /** What connecting the slot of p facing d does to the slot of p' facing d':
      the two slots connected get the solved board's connection, every other
      slot keeps its own. */
  lemma ConnectedSlot(W: nat, H: nat, before: seq<Edge>, after: seq<Edge>, p: Position, d: Direction, p': Position, d': Direction)
    requires InBounds(W, H, p) && InBounds(W, H, Step(p, d)) && InBounds(W, H, p')
    requires var from, to := HomeSlot(W, H, p, d), HomeSlot(W, H, Step(p, d), d.Inverse());
      from < |before| && to < |before| &&
      after == before[from := before[from].(connection := Some(to))][to := before[to].(connection := Some(from))]
    ensures HomeSlot(W, H, p', d') < |after| ==> HomeSlot(W, H, p', d') < |before|
    ensures HomeSlot(W, H, p', d') < |after| ==>
      var s := HomeSlot(W, H, p', d');
      && after[s].group == before[s].group && after[s].shape == before[s].shape && after[s].merges == before[s].merges
      && (after[s].connection == before[s].connection || after[s].connection == HomeTarget(W, H, p', d'))
      && ((p', d') == (p, d) ==> after[s].connection == HomeTarget(W, H, p', d'))
  {
    var q := Step(p, d);
    InverseUndoesStep(p, d);
    HomeSlotBijective(W, H, p', d', p, d);
    HomeSlotBijective(W, H, p', d', q, d.Inverse());
  }

  /** Once all four directions of cell k are done, cell k is done. */
  lemma NextCell(W: nat, H: nat, edges: seq<Edge>, k: nat)
    requires WiredUpTo(W, H, edges, k, 4)
    ensures WiredUpTo(W, H, edges, k + 1, 0)
  {
    forall p: Position, d: Direction | InBounds(W, H, p) && PieceIndex(W, H, p) == k ensures d.Value() < 4 {
    }
  }

  /** After the last cell the arena is wired as the solved board. */
  lemma WiredAll(W: nat, H: nat, edges: seq<Edge>)
    requires WiredUpTo(W, H, edges, W * H, 0)
    ensures Wired(W, H, edges)
  {
  }

  /** One full triple of the border pass, taken from position i of the list. */
  lemma CycleAllStep(W: nat, H: nat, pieces: seq<Piece>, edges: seq<Edge>, order: seq<Position>, i: nat)
    requires Layout(W, H, pieces) && |edges| == 4 * (W * H) && AllInBounds(W, H, order) && i + 3 <= |order|
    ensures AllInBounds(W, H, order[i..]) && AllInBounds(W, H, order[i + 3..])
    ensures CycleAll(W, H, pieces, edges, order[i..])
      == CycleAll(W, H, CycleTriple(W, H, pieces, edges, order[i], order[i + 1], order[i + 2]), edges, order[i + 3..])
  {
    assert order[i..][3..] == order[i + 3..];
  }

  /** The interior loop of shuffle from list position i and turn t on. */
  function CycleAndTurnFrom(W: nat, H: nat, pieces: seq<Piece>, edges: seq<Edge>, order: seq<Position>, turns: seq<Rotation>, i: nat, t: nat): seq<Piece>
    requires Layout(W, H, pieces) && |edges| == 4 * (W * H) && AllInBounds(W, H, order)
    requires i <= |order| && i == 3 * t && 3 * |turns| + 2 >= |order|
    decreases |order| - i
  {
    if i + 3 > |order| then pieces
    else
      CycleAndTurnFrom(W, H, CycleTripleTurned(W, H, pieces, edges, order[i], order[i + 1], order[i + 2], turns[t]), edges, order, turns, i + 3, t + 1)
  }

  /** From the start of the list, the loop is the whole interior pass. */
  lemma CycleAndTurnFromStart(W: nat, H: nat, pieces: seq<Piece>, edges: seq<Edge>, order: seq<Position>, turns: seq<Rotation>)
    requires Layout(W, H, pieces) && |edges| == 4 * (W * H) && AllInBounds(W, H, order) && 3 * |turns| + 2 >= |order|
    ensures CycleAndTurnFrom(W, H, pieces, edges, order, turns, 0, 0) == CycleAndTurnAll(W, H, pieces, edges, order, turns)
  {
    CycleAndTurnFromAll(W, H, pieces, edges, order, turns, 0, 0);
    assert order[0..] == order && turns[0..] == turns;
  }

  /** With no full triple left, the loop leaves the pieces as they are. */
  lemma CycleAndTurnFromEnd(W: nat, H: nat, pieces: seq<Piece>, edges: seq<Edge>, order: seq<Position>, turns: seq<Rotation>, i: nat, t: nat)
    requires Layout(W, H, pieces) && |edges| == 4 * (W * H) && AllInBounds(W, H, order)
    requires i <= |order| < i + 3 && i == 3 * t && 3 * |turns| + 2 >= |order|
    ensures CycleAndTurnFrom(W, H, pieces, edges, order, turns, i, t) == pieces
  {
  }

  /** One full triple of the interior loop from position i. */
  lemma CycleAndTurnFromStep(W: nat, H: nat, pieces: seq<Piece>, edges: seq<Edge>, order: seq<Position>, turns: seq<Rotation>, i: nat, t: nat)
    requires Layout(W, H, pieces) && |edges| == 4 * (W * H) && AllInBounds(W, H, order)
    requires i + 3 <= |order| && i == 3 * t && 3 * |turns| + 2 >= |order|
    ensures t < |turns|
    ensures CycleAndTurnFrom(W, H, pieces, edges, order, turns, i, t)
      == CycleAndTurnFrom(W, H, CycleTripleTurned(W, H, pieces, edges, order[i], order[i + 1], order[i + 2], turns[t]), edges, order, turns, i + 3, t + 1)
  {
  }

  /** Running the loop from position i is the specification of the interior
      pass applied to the rest of the list. */
  lemma {:induction false} CycleAndTurnFromAll(W: nat, H: nat, pieces: seq<Piece>, edges: seq<Edge>, order: seq<Position>, turns: seq<Rotation>, i: nat, t: nat)
    requires Layout(W, H, pieces) && |edges| == 4 * (W * H) && AllInBounds(W, H, order)
    requires i <= |order| && i == 3 * t && 3 * |turns| + 2 >= |order|
    ensures AllInBounds(W, H, order[i..]) && 3 * |turns[t..]| + 2 >= |order[i..]|
    ensures CycleAndTurnFrom(W, H, pieces, edges, order, turns, i, t) == CycleAndTurnAll(W, H, pieces, edges, order[i..], turns[t..])
    decreases |order| - i
  {
    if i + 3 <= |order| {
      var next := CycleTripleTurned(W, H, pieces, edges, order[i], order[i + 1], order[i + 2], turns[t]);
      CycleAndTurnFromAll(W, H, next, edges, order, turns, i + 3, t + 1);
      assert order[i..][3..] == order[i + 3..];
      assert turns[t..][1..] == turns[t + 1..];
    }
  }
}
