/** merge_edges on values: after the shuffle, every slot that faces a cell of
    the board has to fit the neighbour's slot facing back, and so has to end up
    like the edge that slot was connected to on the solved board. merge_edges
    records these requirements as a symmetric "merges" relation. */
module Merging {
  import opened Grid
  import opened Arena

  /** The edge merge_edges pairs with the slot of p facing d: the connection of
      the neighbour's slot facing back (None when that slot is unconnected). */
  function SeamPartner(W: nat, H: nat, pieces: seq<Piece>, edges: seq<Edge>, p: Position, d: Direction): Option<nat>
    requires Layout(W, H, pieces) && |edges| == 4 * (W * H)
    requires InBounds(W, H, p) && InBounds(W, H, Step(p, d))
  {
    EdgeIndexInBlock(W, H, pieces, Step(p, d), d.Inverse());
    edges[EdgeIndex(W, H, pieces, Step(p, d), d.Inverse())].connection
  }

  /** Slot e is the slot of some cell facing a neighbour, and m is its seam
      partner there. */
  ghost predicate Seam(W: nat, H: nat, pieces: seq<Piece>, edges: seq<Edge>, e: nat, m: nat)
    requires Layout(W, H, pieces) && |edges| == 4 * (W * H)
  {
    exists p: Position, d: Direction ::
      && InBounds(W, H, p) && InBounds(W, H, Step(p, d))
      && EdgeIndex(W, H, pieces, p, d) == e && SeamPartner(W, H, pieces, edges, p, d) == Some(m)
  }

  /** The seam at (p, d) is recorded in both directions in `after`. */
  ghost predicate SeamMerged(W: nat, H: nat, pieces: seq<Piece>, before: seq<Edge>, after: seq<Edge>, p: Position, d: Direction)
    requires Layout(W, H, pieces) && |before| == 4 * (W * H) && |after| == |before|
    requires InBounds(W, H, p) && InBounds(W, H, Step(p, d))
  {
    var e, m := EdgeIndex(W, H, pieces, p, d), SeamPartner(W, H, pieces, before, p, d);
    && e < |after| && m.Some? && m.value < |after|
    && m.value in after[e].merges && e in after[m.value].merges
  }

  /** Only merges change; they only grow, and only by seams. */
  ghost predicate MergesOnlyBySeams(W: nat, H: nat, pieces: seq<Piece>, before: seq<Edge>, after: seq<Edge>)
    requires Layout(W, H, pieces) && |before| == 4 * (W * H)
  {
    && |after| == |before| && Indexed(after)
    && (forall e :: 0 <= e < |after| ==>
          && after[e].connection == before[e].connection && after[e].group == before[e].group
          && after[e].shape == before[e].shape && before[e].merges <= after[e].merges)
    && (forall e :: 0 <= e < |after| ==> forall m :: m in after[e].merges ==>
          m in before[e].merges || Seam(W, H, pieces, before, e, m) || Seam(W, H, pieces, before, m, e))
  }

  /** The state of merge_edges after every cell before k, and cell k in the
      directions before dv. */
  ghost predicate MergedUpTo(W: nat, H: nat, pieces: seq<Piece>, before: seq<Edge>, after: seq<Edge>, k: nat, dv: nat)
    requires Layout(W, H, pieces) && |before| == 4 * (W * H)
  {
    && MergesOnlyBySeams(W, H, pieces, before, after)
    && forall p: Position, d: Direction ::
         InBounds(W, H, p) && InBounds(W, H, Step(p, d)) && (PieceIndex(W, H, p) < k || (PieceIndex(W, H, p) == k && d.Value() < dv)) ==>
           SeamMerged(W, H, pieces, before, after, p, d)
  }

  /** The result of merge_edges: every seam of the board is recorded, in both
      directions, and nothing else is added or changed. */
  ghost predicate MergedSeams(W: nat, H: nat, pieces: seq<Piece>, before: seq<Edge>, after: seq<Edge>)
    requires Layout(W, H, pieces) && |before| == 4 * (W * H)
  {
    && MergesOnlyBySeams(W, H, pieces, before, after)
    && forall p: Position, d: Direction :: InBounds(W, H, p) && InBounds(W, H, Step(p, d)) ==>
         SeamMerged(W, H, pieces, before, after, p, d)
  }

  /** One direction of one cell: the slot at (p, d) and its seam partner are
      added to each other's merges (the partner's merges are read after the
      first update, as the same object would be when the two coincide). */
  function MergeSeam(W: nat, H: nat, pieces: seq<Piece>, edges: seq<Edge>, p: Position, d: Direction): (r: seq<Edge>)
    requires Layout(W, H, pieces) && |edges| == 4 * (W * H) && Indexed(edges)
    requires InBounds(W, H, p) && InBounds(W, H, Step(p, d))
    requires SeamPartner(W, H, pieces, edges, p, d).Some?
    ensures |r| == |edges|
    ensures forall e :: 0 <= e < |r| ==>
      r[e].connection == edges[e].connection && r[e].group == edges[e].group && r[e].shape == edges[e].shape
  {
    EdgeIndexInBlock(W, H, pieces, p, d);
    var from, to := EdgeIndex(W, H, pieces, p, d), SeamPartner(W, H, pieces, edges, p, d).value;
    var once := edges[from := edges[from].(merges := edges[from].merges + {to})];
    once[to := once[to].(merges := once[to].merges + {from})]
  }

  /** The seam partner is read off the connections, which only merge_edges'
      merges updates leave alone; on the shuffled arena it is always there. */
  lemma SeamPartnerPresent(W: nat, H: nat, pieces: seq<Piece>, before: seq<Edge>, edges: seq<Edge>, p: Position, d: Direction)
    requires Layout(W, H, pieces) && |before| == 4 * (W * H) && OpenExactlyOutside(W, H, pieces, before)
    requires MergesOnlyBySeams(W, H, pieces, before, edges)
    requires InBounds(W, H, p) && InBounds(W, H, Step(p, d))
    ensures SeamPartner(W, H, pieces, edges, p, d) == SeamPartner(W, H, pieces, before, p, d)
    ensures SeamPartner(W, H, pieces, before, p, d).Some?
  {
    InverseUndoesStep(p, d);
    EdgeIndexInBlock(W, H, pieces, Step(p, d), d.Inverse());
  }

  /** What one seam update adds to each edge's merges. */
  lemma MergeSeamAdds(W: nat, H: nat, pieces: seq<Piece>, edges: seq<Edge>, p: Position, d: Direction)
    requires Layout(W, H, pieces) && |edges| == 4 * (W * H) && Indexed(edges)
    requires InBounds(W, H, p) && InBounds(W, H, Step(p, d))
    requires SeamPartner(W, H, pieces, edges, p, d).Some?
    ensures var after, from, to := MergeSeam(W, H, pieces, edges, p, d), EdgeIndex(W, H, pieces, p, d), SeamPartner(W, H, pieces, edges, p, d).value;
      && from < |edges| && to < |edges| && Indexed(after)
      && to in after[from].merges && from in after[to].merges
      && forall e :: 0 <= e < |after| ==>
           && edges[e].merges <= after[e].merges
           && after[e].merges <= edges[e].merges + (if e == from then {to} else {}) + (if e == to then {from} else {})
  {
    EdgeIndexInBlock(W, H, pieces, p, d);
  }

  /** A recorded seam stays recorded while merges only grow. */
  lemma SeamStaysMerged(W: nat, H: nat, pieces: seq<Piece>, before: seq<Edge>, edges: seq<Edge>, after: seq<Edge>, p: Position, d: Direction)
    requires Layout(W, H, pieces) && |before| == 4 * (W * H) && |edges| == |before| && |after| == |before|
    requires InBounds(W, H, p) && InBounds(W, H, Step(p, d))
    requires forall e :: 0 <= e < |after| ==> edges[e].merges <= after[e].merges
    requires SeamMerged(W, H, pieces, before, edges, p, d)
    ensures SeamMerged(W, H, pieces, before, after, p, d)
  {
  }

  /** Recording one more seam keeps the invariant and moves it one direction on. */
  lemma MergeSeamStep(W: nat, H: nat, pieces: seq<Piece>, before: seq<Edge>, edges: seq<Edge>, p: Position, d: Direction, dv: nat)
    requires Layout(W, H, pieces) && |before| == 4 * (W * H) && OpenExactlyOutside(W, H, pieces, before)
    requires InBounds(W, H, p) && InBounds(W, H, Step(p, d)) && d.Value() == dv
    requires MergedUpTo(W, H, pieces, before, edges, PieceIndex(W, H, p), dv)
    ensures SeamPartner(W, H, pieces, edges, p, d).Some?
    ensures MergedUpTo(W, H, pieces, before, MergeSeam(W, H, pieces, edges, p, d), PieceIndex(W, H, p), dv + 1)
  {
    SeamPartnerPresent(W, H, pieces, before, edges, p, d);
    var from, to := EdgeIndex(W, H, pieces, p, d), SeamPartner(W, H, pieces, before, p, d).value;
    var after := MergeSeam(W, H, pieces, edges, p, d);
    MergeSeamAdds(W, H, pieces, edges, p, d);
    assert Seam(W, H, pieces, before, from, to);
    SeamAddKeepsOnlyBySeams(W, H, pieces, before, edges, after, from, to);
    assert SeamMerged(W, H, pieces, before, after, p, d);
    MergeSeamKeepsDone(W, H, pieces, before, edges, after, p, d, dv);
  }

  /** Adding a seam pair to the merges keeps every merge justified by a seam. */
  lemma SeamAddKeepsOnlyBySeams(W: nat, H: nat, pieces: seq<Piece>, before: seq<Edge>, edges: seq<Edge>, after: seq<Edge>, from: nat, to: nat)
    requires Layout(W, H, pieces) && |before| == 4 * (W * H)
    requires MergesOnlyBySeams(W, H, pieces, before, edges) && Seam(W, H, pieces, before, from, to)
    requires |after| == |edges| && Indexed(after)
    requires forall e :: 0 <= e < |after| ==>
      && after[e].connection == edges[e].connection && after[e].group == edges[e].group && after[e].shape == edges[e].shape
      && edges[e].merges <= after[e].merges
      && after[e].merges <= edges[e].merges + (if e == from then {to} else {}) + (if e == to then {from} else {})
    ensures MergesOnlyBySeams(W, H, pieces, before, after)
  {
    forall e, m | 0 <= e < |after| && m in after[e].merges
      ensures m in before[e].merges || Seam(W, H, pieces, before, e, m) || Seam(W, H, pieces, before, m, e)
    {
      if m !in edges[e].merges {
        assert (e == from && m == to) || (e == to && m == from);
      }
    }
  }

  /** The seams done before stay recorded, and the one at (p, d) is added. */
  lemma MergeSeamKeepsDone(W: nat, H: nat, pieces: seq<Piece>, before: seq<Edge>, edges: seq<Edge>, after: seq<Edge>, p: Position, d: Direction, dv: nat)
    requires Layout(W, H, pieces) && |before| == 4 * (W * H) && |edges| == |before| && |after| == |before|
    requires InBounds(W, H, p) && InBounds(W, H, Step(p, d)) && d.Value() == dv
    requires SeamMerged(W, H, pieces, before, after, p, d)
    requires forall e :: 0 <= e < |after| ==> edges[e].merges <= after[e].merges
    requires forall p': Position, d': Direction ::
      InBounds(W, H, p') && InBounds(W, H, Step(p', d')) && (PieceIndex(W, H, p') < PieceIndex(W, H, p) || (PieceIndex(W, H, p') == PieceIndex(W, H, p) && d'.Value() < dv)) ==>
        SeamMerged(W, H, pieces, before, edges, p', d')
    ensures forall p': Position, d': Direction ::
      InBounds(W, H, p') && InBounds(W, H, Step(p', d')) && (PieceIndex(W, H, p') < PieceIndex(W, H, p) || (PieceIndex(W, H, p') == PieceIndex(W, H, p) && d'.Value() < dv + 1)) ==>
        SeamMerged(W, H, pieces, before, after, p', d')
  {
    forall p': Position, d': Direction | InBounds(W, H, p') && InBounds(W, H, Step(p', d'))
      && (PieceIndex(W, H, p') < PieceIndex(W, H, p) || (PieceIndex(W, H, p') == PieceIndex(W, H, p) && d'.Value() < dv + 1))
      ensures SeamMerged(W, H, pieces, before, after, p', d')
    {
      if PieceIndex(W, H, p') == PieceIndex(W, H, p) && d'.Value() == dv {
        PieceIndexInjective(W, H, p', p);
        assert p' == p && d' == d;
      } else {
        SeamStaysMerged(W, H, pieces, before, edges, after, p', d');
      }
    }
  }

  /** The last direction of a cell leads to the first of the next cell. */
  lemma MergeNextCell(W: nat, H: nat, pieces: seq<Piece>, before: seq<Edge>, after: seq<Edge>, k: nat)
    requires Layout(W, H, pieces) && |before| == 4 * (W * H)
    requires MergedUpTo(W, H, pieces, before, after, k, 4)
    ensures MergedUpTo(W, H, pieces, before, after, k + 1, 0)
  {
    forall p: Position, d: Direction | InBounds(W, H, p) && PieceIndex(W, H, p) == k ensures d.Value() < 4 {
    }
  }

  /** A direction that leads off the board has no seam: merge_edges moves on. */
  lemma MergeSkipOutside(W: nat, H: nat, pieces: seq<Piece>, before: seq<Edge>, after: seq<Edge>, p: Position, d: Direction)
    requires Layout(W, H, pieces) && |before| == 4 * (W * H)
    requires InBounds(W, H, p) && !InBounds(W, H, Step(p, d))
    requires MergedUpTo(W, H, pieces, before, after, PieceIndex(W, H, p), d.Value())
    ensures MergedUpTo(W, H, pieces, before, after, PieceIndex(W, H, p), d.Value() + 1)
  {
    forall p': Position, d': Direction | InBounds(W, H, p') && PieceIndex(W, H, p') == PieceIndex(W, H, p) && d'.Value() == d.Value()
      ensures !InBounds(W, H, Step(p', d'))
    {
      PieceIndexInjective(W, H, p', p);
      assert d' == d;
    }
  }

  /** Once every cell is done, every seam of the board is recorded. */
  lemma MergedAll(W: nat, H: nat, pieces: seq<Piece>, before: seq<Edge>, after: seq<Edge>)
    requires Layout(W, H, pieces) && |before| == 4 * (W * H)
    requires MergedUpTo(W, H, pieces, before, after, H * W, 0)
    ensures MergedSeams(W, H, pieces, before, after)
  {
    assert H * W == W * H;
  }

  /** Before the first cell nothing is recorded yet. */
  lemma MergeStart(W: nat, H: nat, pieces: seq<Piece>, before: seq<Edge>)
    requires Layout(W, H, pieces) && |before| == 4 * (W * H) && Indexed(before)
    ensures MergedUpTo(W, H, pieces, before, before, 0, 0)
  {
  }

  /** A recorded seam of the shuffled arena is mirrored and joins two
      connected edges. */
  lemma SeamConnected(W: nat, H: nat, pieces: seq<Piece>, before: seq<Edge>, after: seq<Edge>, p: Position, d: Direction, e: nat, m: nat)
    requires Layout(W, H, pieces) && |before| == 4 * (W * H)
    requires ConnectionsSymmetric(before) && OpenExactlyOutside(W, H, pieces, before)
    requires MergesOnlyBySeams(W, H, pieces, before, after)
    requires InBounds(W, H, p) && InBounds(W, H, Step(p, d)) && SeamMerged(W, H, pieces, before, after, p, d)
    requires EdgeIndex(W, H, pieces, p, d) == e && SeamPartner(W, H, pieces, before, p, d) == Some(m)
    ensures e < |after| && m < |after| && m in after[e].merges && e in after[m].merges
    ensures after[e].connection.Some? && after[m].connection.Some?
  {
    InverseUndoesStep(p, d);
    EdgeIndexInBlock(W, H, pieces, Step(p, d), d.Inverse());
  }

  /** On the arena as the shuffle leaves it (a symmetric wiring with every slot
      facing a cell connected, and no merges yet), the merges merge_edges
      records are well formed: symmetric, and only between connected edges. */
  lemma MergedWellFormed(W: nat, H: nat, pieces: seq<Piece>, before: seq<Edge>, after: seq<Edge>)
    requires Layout(W, H, pieces) && |before| == 4 * (W * H)
    requires ConnectionsSymmetric(before) && OpenExactlyOutside(W, H, pieces, before)
    requires forall e :: 0 <= e < |before| ==> before[e].merges == {}
    requires MergedSeams(W, H, pieces, before, after)
    ensures MergesWellFormed(after) && ConnectionsSymmetric(after)
  {
    forall e, m | 0 <= e < |after| && m in after[e].merges
      ensures m < |after| && e in after[m].merges && after[e].connection.Some? && after[m].connection.Some?
    {
      MergePairWellFormed(W, H, pieces, before, after, e, m);
    }
  }

  /** One recorded merge of the shuffled arena is mirrored and joins two
      connected edges. */
  lemma MergePairWellFormed(W: nat, H: nat, pieces: seq<Piece>, before: seq<Edge>, after: seq<Edge>, e: nat, m: nat)
    requires Layout(W, H, pieces) && |before| == 4 * (W * H)
    requires ConnectionsSymmetric(before) && OpenExactlyOutside(W, H, pieces, before)
    requires forall e :: 0 <= e < |before| ==> before[e].merges == {}
    requires MergedSeams(W, H, pieces, before, after)
    requires e < |after| && m in after[e].merges
    ensures m < |after| && e in after[m].merges && after[e].connection.Some? && after[m].connection.Some?
  {
    if Seam(W, H, pieces, before, e, m) {
      SeamWellFormed(W, H, pieces, before, after, e, m);
    } else {
      assert Seam(W, H, pieces, before, m, e);
      SeamWellFormed(W, H, pieces, before, after, m, e);
    }
  }

  /** The merge recorded for a seam pair is mirrored and joins two connected
      edges. */
  lemma SeamWellFormed(W: nat, H: nat, pieces: seq<Piece>, before: seq<Edge>, after: seq<Edge>, e: nat, m: nat)
    requires Layout(W, H, pieces) && |before| == 4 * (W * H)
    requires ConnectionsSymmetric(before) && OpenExactlyOutside(W, H, pieces, before)
    requires MergedSeams(W, H, pieces, before, after)
    requires Seam(W, H, pieces, before, e, m)
    ensures e < |after| && m < |after| && m in after[e].merges && e in after[m].merges
    ensures after[e].connection.Some? && after[m].connection.Some?
  {
    var p: Position, d: Direction :| InBounds(W, H, p) && InBounds(W, H, Step(p, d))
      && EdgeIndex(W, H, pieces, p, d) == e && SeamPartner(W, H, pieces, before, p, d) == Some(m);
    SeamConnected(W, H, pieces, before, after, p, d, e, m);
  }
}
