/** Walks through the two graphs collapse_edges works on: the arena's edges,
    joined by merges and by connections, and the graph of groups, joined by
    links. Two edges end with the same group number exactly when a walk of
    the first kind leads from one to the other. */
module Walks {
  import opened Grid
  import opened Arena

  /** One step from edge e to edge f: f is merged with e, or is e's partner
      across a seam. */
  ghost predicate Joins(edges: seq<Edge>, e: nat, f: nat) {
    e < |edges| && (f in edges[e].merges || edges[e].connection == Some(f))
  }

  /** A walk through the arena along merges and connections. */
  ghost predicate EdgeWalk(edges: seq<Edge>, w: seq<nat>) {
    |w| > 0 && forall i :: 0 <= i < |w| - 1 ==> Joins(edges, w[i], w[i + 1])
  }

  /** Some walk leads from edge e to edge f. */
  ghost predicate Joined(edges: seq<Edge>, e: nat, f: nat) {
    exists w :: EdgeWalk(edges, w) && w[0] == e && w[|w| - 1] == f
  }

  /** Walks lead from e to f and from f back to e. */
  ghost predicate Tied(edges: seq<Edge>, e: nat, f: nat) {
    Joined(edges, e, f) && Joined(edges, f, e)
  }

  lemma JoinedSelf(edges: seq<Edge>, e: nat)
    ensures Joined(edges, e, e)
  {
    assert EdgeWalk(edges, [e]);
  }

  /** A walk to f followed by one step from f is a walk. */
  lemma JoinedStep(edges: seq<Edge>, e: nat, f: nat, g: nat)
    requires Joined(edges, e, f) && Joins(edges, f, g)
    ensures Joined(edges, e, g)
  {
    var w :| EdgeWalk(edges, w) && w[0] == e && w[|w| - 1] == f;
    var w' := w + [g];
    forall i | 0 <= i < |w'| - 1 ensures Joins(edges, w'[i], w'[i + 1]) {
      if i < |w| - 1 {
        assert w'[i] == w[i] && w'[i + 1] == w[i + 1];
      }
    }
    assert EdgeWalk(edges, w') && w'[0] == e && w'[|w'| - 1] == g;
  }

  /** One step to f followed by a walk from f is a walk. */
  lemma JoinedBack(edges: seq<Edge>, e: nat, f: nat, g: nat)
    requires Joins(edges, e, f) && Joined(edges, f, g)
    ensures Joined(edges, e, g)
  {
    var w :| EdgeWalk(edges, w) && w[0] == f && w[|w| - 1] == g;
    var w' := [e] + w;
    forall i | 0 <= i < |w'| - 1 ensures Joins(edges, w'[i], w'[i + 1]) {
      if i > 0 {
        assert w'[i] == w[i - 1] && w'[i + 1] == w[i];
      }
    }
    assert EdgeWalk(edges, w') && w'[0] == e && w'[|w'| - 1] == g;
  }

  lemma JoinedTrans(edges: seq<Edge>, e: nat, f: nat, g: nat)
    requires Joined(edges, e, f) && Joined(edges, f, g)
    ensures Joined(edges, e, g)
  {
    var u :| EdgeWalk(edges, u) && u[0] == e && u[|u| - 1] == f;
    var v :| EdgeWalk(edges, v) && v[0] == f && v[|v| - 1] == g;
    var w := u + v[1..];
    forall i | 0 <= i < |w| - 1 ensures Joins(edges, w[i], w[i + 1]) {
      if i < |u| - 1 {
        assert w[i] == u[i] && w[i + 1] == u[i + 1];
      } else {
        assert w[i] == v[i - |u| + 1] && w[i + 1] == v[i - |u| + 2];
      }
    }
    assert EdgeWalk(edges, w) && w[0] == e && w[|w| - 1] == g;
  }

  /** Walks only look at merges and connections: two arenas that agree on
      them join the same edges. */
  lemma JoinedSameLinks(a: seq<Edge>, b: seq<Edge>, e: nat, f: nat)
    requires |a| == |b|
    requires forall x :: 0 <= x < |a| ==> a[x].merges == b[x].merges && a[x].connection == b[x].connection
    ensures Joined(a, e, f) <==> Joined(b, e, f)
  {
    forall w | EdgeWalk(a, w) ensures EdgeWalk(b, w) {
      forall i | 0 <= i < |w| - 1 ensures Joins(b, w[i], w[i + 1]) {
        assert Joins(a, w[i], w[i + 1]);
      }
    }
    forall w | EdgeWalk(b, w) ensures EdgeWalk(a, w) {
      forall i | 0 <= i < |w| - 1 ensures Joins(a, w[i], w[i + 1]) {
        assert Joins(b, w[i], w[i + 1]);
      }
    }
  }

  /** A walk through the group graph: each group is a neighbour of the one
      before. */
  ghost predicate GroupWalk(gc: seq<set<nat>>, w: seq<nat>) {
    && |w| > 0
    && (forall i :: 0 <= i < |w| ==> w[i] < |gc|)
    && (forall i :: 0 <= i < |w| - 1 ==> w[i + 1] in gc[w[i]])
  }

  /** Some walk through the group graph leads from g to c: both are in one
      connected component. */
  ghost predicate Reachable(gc: seq<set<nat>>, g: nat, c: nat) {
    exists w :: GroupWalk(gc, w) && w[0] == g && w[|w| - 1] == c
  }

  lemma ReachableSelf(gc: seq<set<nat>>, g: nat)
    requires g < |gc|
    ensures Reachable(gc, g, g)
  {
    assert GroupWalk(gc, [g]);
  }

  /** A walk to c followed by a neighbour x of c is a walk. */
  lemma ReachableStep(gc: seq<set<nat>>, g: nat, c: nat, x: nat)
    requires Reachable(gc, g, c) && x < |gc| && x in gc[c]
    ensures Reachable(gc, g, x)
  {
    var w :| GroupWalk(gc, w) && w[0] == g && w[|w| - 1] == c;
    var w' := w + [x];
    forall i | 0 <= i < |w'| - 1 ensures w'[i + 1] in gc[w'[i]] {
      if i < |w| - 1 {
        assert w'[i] == w[i] && w'[i + 1] == w[i + 1];
      }
    }
    assert GroupWalk(gc, w') && w'[0] == g && w'[|w'| - 1] == x;
  }

  /** A neighbour c of g followed by a walk from c is a walk. */
  lemma ReachableBack(gc: seq<set<nat>>, g: nat, c: nat, x: nat)
    requires g < |gc| && c in gc[g] && Reachable(gc, c, x)
    ensures Reachable(gc, g, x)
  {
    var w :| GroupWalk(gc, w) && w[0] == c && w[|w| - 1] == x;
    var w' := [g] + w;
    forall i | 0 <= i < |w'| - 1 ensures w'[i + 1] in gc[w'[i]] {
      if i > 0 {
        assert w'[i] == w[i - 1] && w'[i + 1] == w[i];
      }
    }
    assert GroupWalk(gc, w') && w'[0] == g && w'[|w'| - 1] == x;
  }

  lemma ReachableTrans(gc: seq<set<nat>>, g: nat, c: nat, x: nat)
    requires Reachable(gc, g, c) && Reachable(gc, c, x)
    ensures Reachable(gc, g, x)
  {
    var u :| GroupWalk(gc, u) && u[0] == g && u[|u| - 1] == c;
    var v :| GroupWalk(gc, v) && v[0] == c && v[|v| - 1] == x;
    var w := u + v[1..];
    forall i | 0 <= i < |w| - 1 ensures w[i + 1] in gc[w[i]] {
      if i < |u| - 1 {
        assert w[i] == u[i] && w[i + 1] == u[i + 1];
      } else {
        assert w[i] == v[i - |u| + 1] && w[i + 1] == v[i - |u| + 2];
      }
    }
    assert GroupWalk(gc, w) && w[0] == g && w[|w| - 1] == x;
  }
}
