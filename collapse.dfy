/** collapse_edges in four steps, each a method over the edge arena: the merge
    components found with a stack worklist, the graph between them induced by
    connections, the depth-first layering of that graph into an even and an
    odd half per connected component, and the final write of group ids and
    shapes. Python dictionaries keyed by consecutive ids from 0 are sequences;
    sets of edges are sets of arena indices. */
module Collapse {
  import opened Grid
  import opened Arena
  import opened Walks

  /** The indices 0 .. n - 1. */
  function UpTo(n: nat): (s: set<nat>)
    ensures forall i: nat :: i in s <==> i < n
  {
    if n == 0 then {} else UpTo(n - 1) + {n - 1}
  }

  /** Nothing outside s is merged with an edge of s. */
  predicate MergeClosed(edges: seq<Edge>, s: set<nat>) {
    forall e :: e in s && e < |edges| ==> forall m :: m in edges[e].merges ==> m in s
  }

  /** The elements of a set, in an order the caller cannot rely on (the
      iteration order of a Python set). */
  method Enumerate(s: set<nat>) returns (xs: seq<nat>)
    ensures forall x {:trigger x in xs} :: x in xs <==> x in s
  {
    xs := [];
    var rest := s;
    while rest != {}
      invariant rest <= s
      invariant forall x :: x in xs <==> x in s - rest
      decreases rest
    {
      var x :| x in rest;
      xs := xs + [x];
      rest := rest - {x};
    }
  }

  /** What the worklist keeps: queued and collected edges are connected, lie
      outside the groups found before, share the root's colour under any edge
      colouring and are tied to the root by walks; the root is collected or
      queued, and an edge merged with a collected one is collected or queued. */
  ghost predicate Worklist(edges: seq<Edge>, root: nat, mapped: set<nat>, group: set<nat>, queue: seq<nat>) {
    && (forall x: nat :: x in queue ==> x < |edges| && edges[x].connection.Some? && x !in mapped)
    && (forall x: nat :: x in group ==> x < |edges| && edges[x].connection.Some? && x !in mapped)
    && (root in group || root in queue)
    && (forall e :: e in group && e < |edges| ==> forall m :: m in edges[e].merges ==> m in group || m in queue)
    && (forall col :: EdgeColouring(edges, col) ==>
          forall x: nat :: (x in group || x in queue) ==> x < |col| && col[x] == col[root])
    && (forall x :: x in group || x in queue ==> Tied(edges, root, x))
  }

  /** One turn of the worklist: pop the last edge; skip it if already
      collected, otherwise collect it and push everything it is merged with.
      Either the group grows or the queue shrinks. */
  method CollectStep(edges: seq<Edge>, root: nat, ghost mapped: set<nat>, group: set<nat>, queue: seq<nat>)
    returns (group': set<nat>, queue': seq<nat>)
    requires MergesWellFormed(edges) && MergeClosed(edges, mapped) && |queue| > 0
    requires Worklist(edges, root, mapped, group, queue)
    ensures Worklist(edges, root, mapped, group', queue')
    ensures group <= group' <= UpTo(|edges|)
    ensures group' == group ==> |queue'| < |queue|
  {
    var next := queue[|queue| - 1];
    assert next in queue && next < |edges|;
    assert queue == queue[..|queue| - 1] + [next];
    queue' := queue[..|queue| - 1];
    assert forall x :: x in queue' ==> x in queue;
    if next in group {
      return group, queue';
    }
    group' := group + {next};
    var pushed := Enumerate(edges[next].merges);
    forall m | m in pushed ensures m < |edges| && edges[m].connection.Some? && m !in mapped {
      assert m in edges[next].merges && m < |edges|;
      assert next in edges[m].merges;
    }
    MergesJoined(edges, root, next);
    ghost var popped := queue';
    queue' := queue' + pushed;
    forall x: nat | x in queue' ensures x < |edges| && edges[x].connection.Some? && x !in mapped {
      if x !in pushed {
        assert x in popped;
      }
    }
    forall e, m | e in group' && e < |edges| && m in edges[e].merges ensures m in group' || m in queue' {
      if e != next && m !in group' {
        assert m in popped;
      }
    }
    forall x | x in group' || x in queue' ensures Tied(edges, root, x) {
      if x in pushed {
        assert x in edges[next].merges;
      }
    }
  }

  /** The worklist at the heart of collapse_edges' first step, run from root
      until the queue is empty. The result is merge-closed, lies outside every
      group found before, every edge colouring gives all of it the root's
      colour, and walks along merges lead from the root to each of its edges
      and back. */
  method CollectGroup(edges: seq<Edge>, root: nat, ghost mapped: set<nat>) returns (group: set<nat>)
    requires root < |edges| && edges[root].connection.Some? && root !in mapped
    requires MergesWellFormed(edges) && MergeClosed(edges, mapped)
    ensures root in group
    ensures forall x: nat :: x in group ==> x < |edges| && edges[x].connection.Some? && x !in mapped
    ensures MergeClosed(edges, group)
    ensures forall col :: EdgeColouring(edges, col) ==> forall x: nat :: x in group ==> x < |col| && col[x] == col[root]
    ensures forall x :: x in group ==> Tied(edges, root, x)
  {
    group := {};
    var queue: seq<nat> := [root];
    JoinedSelf(edges, root);
    while |queue| > 0
      invariant Worklist(edges, root, mapped, group, queue)
      invariant group <= UpTo(|edges|)
      decreases UpTo(|edges|) - group, |queue|
    {
      group, queue := CollectStep(edges, root, mapped, group, queue);
    }
  }

  /** Whatever a walk reaches from the root, and back, so do the edges merged
      with it. */
  lemma MergesJoined(edges: seq<Edge>, root: nat, next: nat)
    requires MergesWellFormed(edges) && next < |edges|
    requires Tied(edges, root, next)
    ensures forall m :: m in edges[next].merges ==> Tied(edges, root, m)
  {
    forall m | m in edges[next].merges ensures Tied(edges, root, m) {
      assert Joins(edges, next, m) && Joins(edges, m, next);
      JoinedStep(edges, root, next, m);
      JoinedBack(edges, m, next, root);
    }
  }

  /** How the first step's two dictionaries relate: every connected edge is in
      exactly one group, the group ids are 0 .. |groups| - 1, and no group is
      empty. */
  ghost predicate GroupsPartition(edges: seq<Edge>, groupOf: map<nat, nat>, groups: seq<set<nat>>) {
    && (forall e: nat :: e in groupOf <==> e < |edges| && edges[e].connection.Some?)
    && (forall e :: e in groupOf ==> groupOf[e] < |groups| && e in groups[groupOf[e]])
    && (forall g, e {:trigger e in groups[g]} :: 0 <= g < |groups| && e in groups[g] ==> e in groupOf && groupOf[e] == g)
    && (forall g :: 0 <= g < |groups| ==> groups[g] != {})
  }

  /** What the first step keeps while it walks the arena: the groups found so
      far partition the edges they hold, and their union is merge-closed. */
  ghost predicate GroupsSoFar(edges: seq<Edge>, groupOf: map<nat, nat>, groups: seq<set<nat>>) {
    && (forall e: nat :: e in groupOf ==> e < |edges| && edges[e].connection.Some?)
    && (forall e :: e in groupOf ==> groupOf[e] < |groups| && e in groups[groupOf[e]])
    && (forall g, e {:trigger e in groups[g]} :: 0 <= g < |groups| && e in groups[g] ==> e in groupOf && groupOf[e] == g)
    && (forall g :: 0 <= g < |groups| ==> groups[g] != {} && MergeClosed(edges, groups[g]))
    && MergeClosed(edges, groupOf.Keys)
  }

  /** Every group has a root whose colour all its members share. */
  ghost predicate RootColours(edges: seq<Edge>, groupOf: map<nat, nat>, roots: seq<nat>) {
    forall col :: EdgeColouring(edges, col) ==>
      forall e: nat :: e in groupOf ==> e < |col| && groupOf[e] < |roots| && roots[groupOf[e]] < |col| && col[e] == col[roots[groupOf[e]]]
  }

  /** Every group's edges are tied by walks to the group's root. */
  ghost predicate RootsTied(edges: seq<Edge>, groupOf: map<nat, nat>, roots: seq<nat>) {
    forall e :: e in groupOf ==> groupOf[e] < |roots| && Tied(edges, roots[groupOf[e]], e)
  }

  /** group_map after every edge of a new group is mapped to its id. */
  function Grouped(groupOf: map<nat, nat>, group: set<nat>, id: nat): map<nat, nat> {
    groupOf + map e | e in group :: id
  }

  lemma AddGroup(edges: seq<Edge>, groupOf: map<nat, nat>, groups: seq<set<nat>>, group: set<nat>)
    requires GroupsSoFar(edges, groupOf, groups)
    requires group != {}
    requires forall x: nat :: x in group ==> x < |edges| && edges[x].connection.Some? && x !in groupOf.Keys
    requires MergeClosed(edges, group)
    ensures GroupsSoFar(edges, Grouped(groupOf, group, |groups|), groups + [group])
  {
    var id := |groups|;
    var groupOf', groups' := Grouped(groupOf, group, id), groups + [group];
    forall e | e in groupOf' ensures groupOf'[e] < |groups'| && e in groups'[groupOf'[e]] {
      if e !in group {
        assert groups'[groupOf[e]] == groups[groupOf[e]];
      }
    }
    forall g, e {:trigger e in groups'[g]} | 0 <= g < |groups'| && e in groups'[g] ensures e in groupOf' && groupOf'[e] == g {
      if g < id {
        assert e in groups[g] && e in groupOf.Keys;
      }
    }
    forall e, m {:trigger m in edges[e].merges} | e in groupOf'.Keys && e < |edges| && m in edges[e].merges ensures m in groupOf'.Keys {
      if e in group {
        assert m in group;
      } else {
        assert e in groupOf.Keys && m in groupOf.Keys;
      }
    }
  }

  lemma AddRoot(edges: seq<Edge>, groupOf: map<nat, nat>, roots: seq<nat>, root: nat, group: set<nat>)
    requires RootColours(edges, groupOf, roots)
    requires forall e :: e in groupOf ==> groupOf[e] < |roots|
    requires forall col :: EdgeColouring(edges, col) ==> root < |col| && forall x: nat :: x in group ==> x < |col| && col[x] == col[root]
    requires root in group
    ensures RootColours(edges, Grouped(groupOf, group, |roots|), roots + [root])
  {
    var groupOf', roots' := Grouped(groupOf, group, |roots|), roots + [root];
    forall col | EdgeColouring(edges, col)
      ensures forall e: nat :: e in groupOf' ==> e < |col| && groupOf'[e] < |roots'| && roots'[groupOf'[e]] < |col| && col[e] == col[roots'[groupOf'[e]]]
    {
      forall e: nat | e in groupOf'
        ensures e < |col| && groupOf'[e] < |roots'| && roots'[groupOf'[e]] < |col| && col[e] == col[roots'[groupOf'[e]]]
      {
        if e !in group {
          assert roots'[groupOf'[e]] == roots[groupOf[e]];
        }
      }
    }
  }

  lemma AddTied(edges: seq<Edge>, groupOf: map<nat, nat>, roots: seq<nat>, root: nat, group: set<nat>)
    requires RootsTied(edges, groupOf, roots)
    requires forall x :: x in group ==> Tied(edges, root, x)
    ensures RootsTied(edges, Grouped(groupOf, group, |roots|), roots + [root])
  {
    var groupOf', roots' := Grouped(groupOf, group, |roots|), roots + [root];
    forall e | e in groupOf' ensures groupOf'[e] < |roots'| && Tied(edges, roots'[groupOf'[e]], e) {
      if e !in group {
        assert roots'[groupOf'[e]] == roots[groupOf[e]];
      }
    }
  }

  lemma FinishPartition(edges: seq<Edge>, groupOf: map<nat, nat>, groups: seq<set<nat>>)
    requires GroupsSoFar(edges, groupOf, groups)
    requires forall e :: 0 <= e < |edges| && edges[e].connection.Some? ==> e in groupOf
    ensures GroupsPartition(edges, groupOf, groups)
  {
  }

  lemma FinishMerges(edges: seq<Edge>, groupOf: map<nat, nat>, groups: seq<set<nat>>)
    requires GroupsSoFar(edges, groupOf, groups)
    ensures forall e: nat, m {:trigger m in edges[e].merges} :: e in groupOf && e < |edges| && m in edges[e].merges ==> m in groupOf && groupOf[m] == groupOf[e]
  {
    forall e: nat, m | e in groupOf && e < |edges| && m in edges[e].merges
      ensures m in groupOf && groupOf[m] == groupOf[e]
    {
      assert MergeClosed(edges, groups[groupOf[e]]);
    }
  }

  lemma FinishColours(edges: seq<Edge>, groupOf: map<nat, nat>, roots: seq<nat>)
    requires RootColours(edges, groupOf, roots)
    ensures forall col :: EdgeColouring(edges, col) ==>
      forall e: nat, f: nat :: e in groupOf && f in groupOf && groupOf[e] == groupOf[f] ==> e < |col| && f < |col| && col[e] == col[f]
  {
    forall col | EdgeColouring(edges, col)
      ensures forall e: nat, f: nat :: e in groupOf && f in groupOf && groupOf[e] == groupOf[f] ==> e < |col| && f < |col| && col[e] == col[f]
    {
      forall e: nat, f: nat | e in groupOf && f in groupOf && groupOf[e] == groupOf[f]
        ensures e < |col| && f < |col| && col[e] == col[f]
      {
        assert col[e] == col[roots[groupOf[e]]];
        assert col[f] == col[roots[groupOf[f]]];
      }
    }
  }

  /** Walks join any two edges of one group. */
  ghost predicate GroupsJoined(edges: seq<Edge>, groupOf: map<nat, nat>) {
    forall e: nat, f: nat :: e in groupOf && f in groupOf && groupOf[e] == groupOf[f] ==> Joined(edges, e, f)
  }

  /** Edges of one group are joined by a walk: through the group's root. */
  lemma FinishTied(edges: seq<Edge>, groupOf: map<nat, nat>, roots: seq<nat>)
    requires RootsTied(edges, groupOf, roots)
    ensures GroupsJoined(edges, groupOf)
  {
    forall e: nat, f: nat | e in groupOf && f in groupOf && groupOf[e] == groupOf[f] ensures Joined(edges, e, f) {
      JoinedTrans(edges, e, roots[groupOf[e]], f);
    }
  }

  /** What the first step keeps once the edges below i are handled: every
      connected edge below i is grouped, and each group has a root. */
  ghost predicate GroupedBelow(edges: seq<Edge>, i: nat, groupOf: map<nat, nat>, groups: seq<set<nat>>, roots: seq<nat>) {
    && GroupsSoFar(edges, groupOf, groups)
    && |roots| == |groups| && RootColours(edges, groupOf, roots) && RootsTied(edges, groupOf, roots)
    && forall e :: 0 <= e < i && e < |edges| && edges[e].connection.Some? ==> e in groupOf
  }

  /** One pass of the first step's loop, for edge i: an unconnected or already
      grouped edge is passed over; otherwise the group grown from it gets the
      next id. */
  method GroupFrom(edges: seq<Edge>, i: nat, groupOf: map<nat, nat>, groups: seq<set<nat>>, ghost roots: seq<nat>)
    returns (groupOf': map<nat, nat>, groups': seq<set<nat>>, ghost roots': seq<nat>)
    requires MergesWellFormed(edges) && i < |edges|
    requires GroupedBelow(edges, i, groupOf, groups, roots)
    ensures GroupedBelow(edges, i + 1, groupOf', groups', roots')
  {
    if edges[i].connection.None? || i in groupOf {
      return groupOf, groups, roots;
    }
    var group := CollectGroup(edges, i, groupOf.Keys);
    AddGroup(edges, groupOf, groups, group);
    AddRoot(edges, groupOf, roots, i, group);
    AddTied(edges, groupOf, roots, i, group);
    groupOf' := Grouped(groupOf, group, |groups|);
    groups' := groups + [group];
    roots' := roots + [i];
  }

  /** collapse_edges' first step: walk the edges in arena order and grow a new
      group from every connected edge not yet in one. Merged edges end in the
      same group, a group never mixes the two colours of an edge colouring, and
      a walk along merges joins any two edges of one group. */
  method FindGroups(edges: seq<Edge>) returns (groupOf: map<nat, nat>, groups: seq<set<nat>>)
    requires MergesWellFormed(edges)
    ensures GroupsPartition(edges, groupOf, groups)
    ensures forall e: nat, m {:trigger m in edges[e].merges} :: e in groupOf && e < |edges| && m in edges[e].merges ==> m in groupOf && groupOf[m] == groupOf[e]
    ensures forall col :: EdgeColouring(edges, col) ==>
      forall e: nat, f: nat :: e in groupOf && f in groupOf && groupOf[e] == groupOf[f] ==> e < |col| && f < |col| && col[e] == col[f]
    ensures GroupsJoined(edges, groupOf)
  {
    groupOf, groups := map[], [];
    ghost var roots: seq<nat> := [];
    for i := 0 to |edges|
      invariant GroupedBelow(edges, i, groupOf, groups, roots)
    {
      groupOf, groups, roots := GroupFrom(edges, i, groupOf, groups, roots);
    }
    FinishPartition(edges, groupOf, groups);
    FinishMerges(edges, groupOf, groups);
    FinishColours(edges, groupOf, roots);
    FinishTied(edges, groupOf, roots);
  }

  /** Edge e is connected, lies in group g, and its partner lies in group c. */
  ghost predicate Links(edges: seq<Edge>, groupOf: map<nat, nat>, e: nat, g: nat, c: nat) {
    && e < |edges| && edges[e].connection.Some?
    && e in groupOf && edges[e].connection.value in groupOf
    && groupOf[e] == g && groupOf[edges[e].connection.value] == c
  }

  /** The graph holds exactly the links made by the edges below i. */
  ghost predicate LinkedBelow(edges: seq<Edge>, groupOf: map<nat, nat>, gc: seq<set<nat>>, i: nat) {
    forall g: nat, c: nat :: g < |gc| ==> (c in gc[g] <==> exists e: nat :: e < i && Links(edges, groupOf, e, g, c))
  }

  /** One pass of the second step's loop, for edge i: a connected edge links
      its group to its partner's group. */
  method LinkEdge(edges: seq<Edge>, groupOf: map<nat, nat>, groups: seq<set<nat>>, gc: seq<set<nat>>, i: nat) returns (gc': seq<set<nat>>)
    requires GroupsPartition(edges, groupOf, groups) && ConnectionsSymmetric(edges)
    requires i < |edges| && |gc| == |groups| && LinkedBelow(edges, groupOf, gc, i)
    ensures |gc'| == |groups| && LinkedBelow(edges, groupOf, gc', i + 1)
  {
    if edges[i].connection.None? {
      forall x: nat, y: nat | x < |gc| ensures y in gc[x] <==> exists e: nat :: e < i + 1 && Links(edges, groupOf, e, x, y) {
        LinksUpTo(edges, groupOf, i, x, y);
      }
      return gc;
    }
    var g, c := groupOf[i], groupOf[edges[i].connection.value];
    assert Links(edges, groupOf, i, g, c);
    gc' := gc[g := gc[g] + {c}];
    forall x: nat, y: nat | x < |gc'| ensures y in gc'[x] <==> exists e: nat :: e < i + 1 && Links(edges, groupOf, e, x, y) {
      LinksUpTo(edges, groupOf, i, x, y);
      assert Links(edges, groupOf, i, x, y) <==> x == g && y == c;
      assert y in gc'[x] <==> y in gc[x] || (x == g && y == c);
    }
  }

  /** collapse_edges' second step: group g is linked to group c when some
      connected edge of g has its partner in c. Every group has a connected
      edge, so the dictionary has a key for every group id. */
  method GroupGraph(edges: seq<Edge>, groupOf: map<nat, nat>, groups: seq<set<nat>>) returns (gc: seq<set<nat>>)
    requires GroupsPartition(edges, groupOf, groups) && ConnectionsSymmetric(edges)
    ensures |gc| == |groups|
    ensures forall g: nat, c: nat :: g < |gc| ==> (c in gc[g] <==> exists e: nat :: Links(edges, groupOf, e, g, c))
  {
    gc := seq(|groups|, g => {});
    for i := 0 to |edges|
      invariant |gc| == |groups| && LinkedBelow(edges, groupOf, gc, i)
    {
      gc := LinkEdge(edges, groupOf, groups, gc, i);
    }
  }

  /** The edges below i + 1 linking g to c: those below i, and edge i if it does. */
  lemma LinksUpTo(edges: seq<Edge>, groupOf: map<nat, nat>, i: nat, g: nat, c: nat)
    ensures (exists e: nat :: e < i + 1 && Links(edges, groupOf, e, g, c))
        <==> (exists e: nat :: e < i && Links(edges, groupOf, e, g, c)) || Links(edges, groupOf, i, g, c)
  {
  }

  /** Every neighbour is a group id. */
  predicate GraphWellFormed(gc: seq<set<nat>>) {
    forall g :: 0 <= g < |gc| ==> forall c :: c in gc[g] ==> c < |gc|
  }

  /** Neighbourhood is symmetric. */
  predicate GraphSymmetric(gc: seq<set<nat>>)
    requires GraphWellFormed(gc)
  {
    forall g :: 0 <= g < |gc| ==> forall c :: c in gc[g] ==> g in gc[c]
  }

  /** Since connections are symmetric, so is the group graph. */
  lemma GroupGraphSymmetric(edges: seq<Edge>, groupOf: map<nat, nat>, groups: seq<set<nat>>, gc: seq<set<nat>>)
    requires GroupsPartition(edges, groupOf, groups) && ConnectionsSymmetric(edges)
    requires |gc| == |groups|
    requires forall g: nat, c: nat :: g < |gc| ==> (c in gc[g] <==> exists e: nat :: Links(edges, groupOf, e, g, c))
    ensures GraphWellFormed(gc) && GraphSymmetric(gc)
  {
    forall g: nat, c: nat | g < |gc| && c in gc[g] ensures c < |gc| && g in gc[c] {
      var e: nat :| Links(edges, groupOf, e, g, c);
      var f := edges[e].connection.value;
      assert Links(edges, groupOf, f, c, g);
    }
  }

  /** The layers of one component as the third step's depth-first walk records
      them: every group reached from start and not already coloured gets the
      depth at which it is first popped. */
  ghost predicate LayersMatch(layers: map<nat, set<nat>>, depthOf: map<nat, nat>) {
    && (forall d :: d in layers ==> forall g :: g in layers[d] ==> g in depthOf && depthOf[g] == d)
    && (forall g :: g in depthOf ==> depthOf[g] in layers && g in layers[depthOf[g]])
  }

  /** Each reached group other than start was pushed by a neighbour (its
      parent) one layer up. */
  ghost predicate DepthTree(gc: seq<set<nat>>, start: nat, depthOf: map<nat, nat>, parent: map<nat, nat>) {
    && (forall g :: g in depthOf ==> g == start || g in parent)
    && (forall g {:trigger parent[g]} :: g in parent ==>
          g in depthOf && parent[g] in depthOf && parent[g] < |gc| && g in gc[parent[g]] && depthOf[g] == depthOf[parent[g]] + 1)
  }

  /** The groups named by the stack entries. */
  function Firsts(queue: seq<(nat, nat)>): (r: seq<nat>)
    ensures |r| == |queue| && forall i :: 0 <= i < |queue| ==> r[i] == queue[i].0
  {
    seq(|queue|, i requires 0 <= i < |queue| => queue[i].0)
  }

  /** The stack entries a popped group pushes: its neighbours, one layer deeper. */
  function Pushes(next: seq<nat>, depth: nat): (q: seq<(nat, nat)>)
    ensures |q| == |next| && forall i :: 0 <= i < |q| ==> q[i] == (next[i], depth)
  {
    seq(|next|, i requires 0 <= i < |next| => (next[i], depth))
  }

  /** The recorded pusher of each pushed entry: the group that pushed them. */
  ghost function Repeat(g: nat, n: nat): (r: seq<nat>)
    ensures |r| == n && forall i :: 0 <= i < n ==> r[i] == g
  {
    seq(n, i => g)
  }

  /** Every stack entry is a group id, and is either the start entry or was
      pushed by a recorded group (kept alongside) one layer up. */
  ghost predicate QueueFrom(gc: seq<set<nat>>, start: nat, queue: seq<(nat, nat)>, pushers: seq<nat>, depthOf: map<nat, nat>) {
    && |pushers| == |queue|
    && forall i :: 0 <= i < |queue| ==>
      && queue[i].0 < |gc|
      && (queue[i] == (start, 0) ||
          (pushers[i] in depthOf && pushers[i] < |gc| && queue[i].0 in gc[pushers[i]] && queue[i].1 == depthOf[pushers[i]] + 1))
  }

  /** Every neighbour of a recorded group is recorded, skipped as done, or still
      on the stack. */
  ghost predicate ClosedUpTo(gc: seq<set<nat>>, done: set<nat>, queue: seq<(nat, nat)>, depthOf: map<nat, nat>) {
    forall g :: g in depthOf && 0 <= g < |gc| ==> forall c :: c in gc[g] ==>
      c in depthOf || c in done || c in Firsts(queue)
  }

  /** What the walk keeps between two pops. */
  ghost predicate Walk(gc: seq<set<nat>>, start: nat, done: set<nat>, queue: seq<(nat, nat)>, pushers: seq<nat>,
                       seen: set<nat>, layers: map<nat, set<nat>>, depthOf: map<nat, nat>, parent: map<nat, nat>) {
    && seen == depthOf.Keys
    && (forall g :: g in depthOf ==> g < |gc| && g !in done)
    && ((seen == {} && queue == [(start, 0)]) || (start in depthOf && depthOf[start] == 0))
    && QueueFrom(gc, start, queue, pushers, depthOf)
    && ClosedUpTo(gc, done, queue, depthOf)
    && DepthTree(gc, start, depthOf, parent)
    && parent.Keys <= depthOf.Keys
    && LayersMatch(layers, depthOf)
  }

  lemma PopKeepsClosed(gc: seq<set<nat>>, done: set<nat>, full: seq<(nat, nat)>, depthOf: map<nat, nat>)
    requires ClosedUpTo(gc, done, full, depthOf) && |full| > 0
    requires full[|full| - 1].0 in done || full[|full| - 1].0 in depthOf
    ensures ClosedUpTo(gc, done, full[..|full| - 1], depthOf)
  {
    assert Firsts(full) == Firsts(full[..|full| - 1]) + [full[|full| - 1].0];
  }

  /** Popping a group that is done or already seen changes nothing else. */
  lemma SkipKeepsWalk(gc: seq<set<nat>>, start: nat, done: set<nat>, full: seq<(nat, nat)>, pushers: seq<nat>,
                      seen: set<nat>, layers: map<nat, set<nat>>, depthOf: map<nat, nat>, parent: map<nat, nat>)
    requires Walk(gc, start, done, full, pushers, seen, layers, depthOf, parent) && |full| > 0 && start !in done
    requires full[|full| - 1].0 in done || full[|full| - 1].0 in seen
    ensures Walk(gc, start, done, full[..|full| - 1], pushers[..|full| - 1], seen, layers, depthOf, parent)
  {
    PopKeepsClosed(gc, done, full, depthOf);
    if seen == {} {
      assert false;
    }
  }

  lemma VisitKeepsQueue(gc: seq<set<nat>>, start: nat, full: seq<(nat, nat)>, pushers: seq<nat>, depthOf: map<nat, nat>, next: seq<nat>)
    requires GraphWellFormed(gc) && |full| > 0
    requires QueueFrom(gc, start, full, pushers, depthOf)
    requires full[|full| - 1].0 !in depthOf && full[|full| - 1].0 < |gc|
    requires forall c {:trigger c in next} :: c in next <==> c in gc[full[|full| - 1].0]
    ensures var g, depth := full[|full| - 1].0, full[|full| - 1].1;
      QueueFrom(gc, start, full[..|full| - 1] + Pushes(next, depth + 1),
                pushers[..|full| - 1] + Repeat(g, |next|), depthOf[g := depth])
  {
    var g, depth := full[|full| - 1].0, full[|full| - 1].1;
    var rest := full[..|full| - 1];
    var queue := rest + Pushes(next, depth + 1);
    var pushers' := pushers[..|full| - 1] + Repeat(g, |next|);
    var depthOf' := depthOf[g := depth];
    forall i | 0 <= i < |queue|
      ensures queue[i].0 < |gc|
      ensures queue[i] == (start, 0) ||
        (pushers'[i] in depthOf' && pushers'[i] < |gc| && queue[i].0 in gc[pushers'[i]] && queue[i].1 == depthOf'[pushers'[i]] + 1)
    {
      if i >= |rest| {
        assert queue[i] == (next[i - |rest|], depth + 1) && next[i - |rest|] in next;
        assert pushers'[i] == g;
      } else {
        assert queue[i] == full[i] && pushers'[i] == pushers[i];
      }
    }
  }

  lemma VisitKeepsClosed(gc: seq<set<nat>>, done: set<nat>, full: seq<(nat, nat)>, depthOf: map<nat, nat>, next: seq<nat>)
    requires ClosedUpTo(gc, done, full, depthOf) && |full| > 0 && full[|full| - 1].0 < |gc|
    requires forall c {:trigger c in next} :: c in next <==> c in gc[full[|full| - 1].0]
    ensures var g, depth := full[|full| - 1].0, full[|full| - 1].1;
      ClosedUpTo(gc, done, full[..|full| - 1] + Pushes(next, depth + 1), depthOf[g := depth])
  {
    var g, depth := full[|full| - 1].0, full[|full| - 1].1;
    var rest := full[..|full| - 1];
    var queue := rest + Pushes(next, depth + 1);
    assert Firsts(full) == Firsts(rest) + [g];
    assert Firsts(queue) == Firsts(rest) + next;
  }

  lemma VisitKeepsTree(gc: seq<set<nat>>, start: nat, depthOf: map<nat, nat>, parent: map<nat, nat>, g: nat, depth: nat, p: nat)
    requires DepthTree(gc, start, depthOf, parent) && g !in depthOf
    requires (g, depth) == (start, 0) || (p in depthOf && p < |gc| && g in gc[p] && depth == depthOf[p] + 1)
    requires g == start ==> depth == 0 && start !in parent
    ensures DepthTree(gc, start, depthOf[g := depth], Adopt(parent, start, g, p))
  {
  }

  /** The parent map after recording g as reached from p; the start has none. */
  ghost function Adopt(parent: map<nat, nat>, start: nat, g: nat, p: nat): map<nat, nat> {
    if g == start then parent else parent[g := p]
  }

  lemma VisitKeepsLayers(layers: map<nat, set<nat>>, depthOf: map<nat, nat>, g: nat, depth: nat)
    requires LayersMatch(layers, depthOf) && g !in depthOf
    ensures LayersMatch(layers[depth := (if depth in layers then layers[depth] else {}) + {g}], depthOf[g := depth])
  {
  }

  /** Popping a new group, recording it and pushing its neighbours. */
  lemma VisitKeepsWalk(gc: seq<set<nat>>, start: nat, done: set<nat>, full: seq<(nat, nat)>, pushers: seq<nat>,
                       seen: set<nat>, layers: map<nat, set<nat>>, depthOf: map<nat, nat>, parent: map<nat, nat>, next: seq<nat>)
    returns (pushers': seq<nat>, depthOf': map<nat, nat>, parent': map<nat, nat>)
    requires GraphWellFormed(gc) && start !in done
    requires Walk(gc, start, done, full, pushers, seen, layers, depthOf, parent) && |full| > 0
    requires full[|full| - 1].0 !in done && full[|full| - 1].0 !in seen
    requires forall c {:trigger c in next} :: c in next <==> c in gc[full[|full| - 1].0]
    ensures var g, depth := full[|full| - 1].0, full[|full| - 1].1;
      depthOf' == depthOf[g := depth] &&
      Walk(gc, start, done, full[..|full| - 1] + Pushes(next, depth + 1), pushers',
           seen + {g}, layers[depth := (if depth in layers then layers[depth] else {}) + {g}], depthOf', parent')
  {
    var g, depth := full[|full| - 1].0, full[|full| - 1].1;
    assert seen == {} ==> g == start && depth == 0;
    VisitKeepsQueue(gc, start, full, pushers, depthOf, next);
    VisitKeepsClosed(gc, done, full, depthOf, next);
    VisitKeepsTree(gc, start, depthOf, parent, g, depth, pushers[|full| - 1]);
    VisitKeepsLayers(layers, depthOf, g, depth);
    VisitKeepsRecord(gc, start, done, seen, depthOf, parent, g, depth, pushers[|full| - 1]);
    pushers', depthOf', parent' := pushers[..|full| - 1] + Repeat(g, |next|), depthOf[g := depth],
      Adopt(parent, start, g, pushers[|full| - 1]);
  }

  /** Recording a new group keeps the seen set, the depth map and the parent
      map in step, and the start at depth 0. */
  lemma VisitKeepsRecord(gc: seq<set<nat>>, start: nat, done: set<nat>, seen: set<nat>, depthOf: map<nat, nat>,
                         parent: map<nat, nat>, g: nat, depth: nat, p: nat)
    requires seen == depthOf.Keys && parent.Keys <= depthOf.Keys
    requires forall g :: g in depthOf ==> g < |gc| && g !in done
    requires g < |gc| && g !in done && g !in seen && (seen == {} ==> g == start && depth == 0)
    requires seen == {} || (start in depthOf && depthOf[start] == 0)
    ensures seen + {g} == depthOf[g := depth].Keys && Adopt(parent, start, g, p).Keys <= depthOf[g := depth].Keys
    ensures forall h :: h in depthOf[g := depth] ==> h < |gc| && h !in done
    ensures start in depthOf[g := depth] && depthOf[g := depth][start] == 0
  {
    if seen != {} {
      assert start in depthOf && start != g;
    }
  }

  /** When the stack runs empty the recorded groups form a whole component. */
  lemma WalkEnd(gc: seq<set<nat>>, start: nat, done: set<nat>, pushers: seq<nat>,
                seen: set<nat>, layers: map<nat, set<nat>>, depthOf: map<nat, nat>, parent: map<nat, nat>)
    requires Walk(gc, start, done, [], pushers, seen, layers, depthOf, parent)
    ensures ComponentTree(gc, start, depthOf, parent)
    ensures ComponentClosed(gc, done, depthOf)
    ensures LayersMatch(layers, depthOf)
  {
    assert Firsts([]) == [];
  }

  /** Marking one more group as seen leaves fewer groups unseen. */
  lemma UnseenShrinks(n: nat, seen: set<nat>, g: nat)
    requires g < n && g !in seen
    ensures UpTo(n) - (seen + {g}) < UpTo(n) - seen
  {
    assert g in UpTo(n) - seen;
  }

  /** One pass of the depth-first walk's loop: pop the top entry; a group that
      is done or already seen is dropped, any other is recorded in the layer of
      its depth and its neighbours are pushed one layer deeper. Either fewer
      groups remain unseen, or as many and a shorter stack. */
  method PopStep(gc: seq<set<nat>>, start: nat, done: set<nat>, queue: seq<(nat, nat)>, ghost pushers: seq<nat>,
                 seen: set<nat>, layers: map<nat, set<nat>>, ghost depthOf: map<nat, nat>, ghost parent: map<nat, nat>)
    returns (queue': seq<(nat, nat)>, ghost pushers': seq<nat>, seen': set<nat>, layers': map<nat, set<nat>>,
             ghost depthOf': map<nat, nat>, ghost parent': map<nat, nat>)
    requires GraphWellFormed(gc) && start !in done && |queue| > 0
    requires Walk(gc, start, done, queue, pushers, seen, layers, depthOf, parent)
    ensures Walk(gc, start, done, queue', pushers', seen', layers', depthOf', parent')
    ensures UpTo(|gc|) - seen' < UpTo(|gc|) - seen || (seen' == seen && |queue'| < |queue|)
  {
    var g, depth := queue[|queue| - 1].0, queue[|queue| - 1].1;
    if g in done || g in seen {
      SkipKeepsWalk(gc, start, done, queue, pushers, seen, layers, depthOf, parent);
      queue', pushers', seen', layers', depthOf', parent' := queue[..|queue| - 1], pushers[..|queue| - 1], seen, layers, depthOf, parent;
    } else {
      UnseenShrinks(|gc|, seen, g);
      var next := Enumerate(gc[g]);
      queue', pushers', seen', layers', depthOf', parent' := VisitGroup(gc, start, done, queue, pushers, seen, layers, depthOf, parent, next);
    }
  }

  /** The second case of a pass: the popped group g is new, so it is seen,
      recorded at the depth it was pushed with, and its neighbours are pushed. */
  method VisitGroup(gc: seq<set<nat>>, start: nat, done: set<nat>, queue: seq<(nat, nat)>, ghost pushers: seq<nat>,
                    seen: set<nat>, layers: map<nat, set<nat>>, ghost depthOf: map<nat, nat>, ghost parent: map<nat, nat>,
                    next: seq<nat>)
    returns (queue': seq<(nat, nat)>, ghost pushers': seq<nat>, seen': set<nat>, layers': map<nat, set<nat>>,
             ghost depthOf': map<nat, nat>, ghost parent': map<nat, nat>)
    requires GraphWellFormed(gc) && start !in done && |queue| > 0
    requires Walk(gc, start, done, queue, pushers, seen, layers, depthOf, parent)
    requires queue[|queue| - 1].0 !in done && queue[|queue| - 1].0 !in seen
    requires forall c {:trigger c in next} :: c in next <==> c in gc[queue[|queue| - 1].0]
    ensures var g, depth := queue[|queue| - 1].0, queue[|queue| - 1].1;
      seen' == seen + {g} && depthOf' == depthOf[g := depth]
    ensures Walk(gc, start, done, queue', pushers', seen', layers', depthOf', parent')
  {
    var g, depth := queue[|queue| - 1].0, queue[|queue| - 1].1;
    queue' := queue[..|queue| - 1] + Pushes(next, depth + 1);
    seen' := seen + {g};
    layers' := layers[depth := (if depth in layers then layers[depth] else {}) + {g}];
    pushers', depthOf', parent' := VisitKeepsWalk(gc, start, done, queue, pushers, seen, layers, depthOf, parent, next);
  }

  /** collapse_edges' depth-first walk of one component of the group graph:
      groups already coloured (done) are skipped, every other group reached
      from start is recorded once, in the layer of the depth at which it is
      first popped, and the component it returns is closed under
      neighbourhood apart from the groups already done. */
  method LayerComponent(gc: seq<set<nat>>, start: nat, done: set<nat>)
    returns (layers: map<nat, set<nat>>, ghost depthOf: map<nat, nat>, ghost parent: map<nat, nat>)
    requires GraphWellFormed(gc) && start < |gc| && start !in done
    ensures ComponentTree(gc, start, depthOf, parent)
    ensures ComponentClosed(gc, done, depthOf)
    ensures LayersMatch(layers, depthOf)
  {
    var queue: seq<(nat, nat)> := [(start, 0)];
    ghost var pushers: seq<nat> := [start];
    var seen: set<nat> := {};
    layers, depthOf, parent := map[], map[], map[];
    while |queue| > 0
      invariant Walk(gc, start, done, queue, pushers, seen, layers, depthOf, parent)
      decreases UpTo(|gc|) - seen, |queue|
    {
      queue, pushers, seen, layers, depthOf, parent := PopStep(gc, start, done, queue, pushers, seen, layers, depthOf, parent);
    }
    WalkEnd(gc, start, done, pushers, seen, layers, depthOf, parent);
  }


  /** collapse_edges splits one component's layers into the groups at even
      depth and those at odd depth. */
  method SplitParity(layers: map<nat, set<nat>>) returns (even: set<nat>, odd: set<nat>)
    ensures forall g :: g in even <==> exists d :: d in layers && d % 2 == 0 && g in layers[d]
    ensures forall g :: g in odd <==> exists d :: d in layers && d % 2 == 1 && g in layers[d]
  {
    even, odd := {}, {};
    var rest := layers.Keys;
    while rest != {}
      invariant rest <= layers.Keys
      invariant forall g :: g in even <==> exists d :: d in layers && d !in rest && d % 2 == 0 && g in layers[d]
      invariant forall g :: g in odd <==> exists d :: d in layers && d !in rest && d % 2 == 1 && g in layers[d]
      decreases rest
    {
      var d :| d in rest;
      if d % 2 == 0 {
        even := even + layers[d];
      } else {
        odd := odd + layers[d];
      }
      rest := rest - {d};
    }
  }

  /** Since every group sits in exactly one layer, the even and odd halves are
      the groups of even and of odd depth, and never overlap: the check that
      would reject a component in collapse_edges cannot fire. */
  lemma ParitySplit(layers: map<nat, set<nat>>, depthOf: map<nat, nat>, even: set<nat>, odd: set<nat>)
    requires LayersMatch(layers, depthOf)
    requires forall g :: g in even <==> exists d :: d in layers && d % 2 == 0 && g in layers[d]
    requires forall g :: g in odd <==> exists d :: d in layers && d % 2 == 1 && g in layers[d]
    ensures forall g :: g in even <==> g in depthOf && depthOf[g] % 2 == 0
    ensures forall g :: g in odd <==> g in depthOf && depthOf[g] % 2 == 1
    ensures even * odd == {}
  {
    forall g | g in depthOf ensures depthOf[g] % 2 == 0 ==> g in even
      ensures depthOf[g] % 2 == 1 ==> g in odd {
      assert depthOf[g] in layers && g in layers[depthOf[g]];
    }
    assert forall g :: g in even * odd ==> false;
  }

  /** The bookkeeping of collapse_edges' third step: the group-group ids come
      in pairs 0 .. |groupGroups| - 1, even ids are Knob and odd ids Socket,
      and group_group_map and group_groups describe the same assignment of the groups 0 .. n - 1. */
  ghost predicate Numbered(n: nat, ggMap: map<nat, nat>, groupGroups: seq<set<nat>>, ggShape: seq<Shape>) {
    && |ggShape| == |groupGroups| && |groupGroups| % 2 == 0
    && (forall i :: 0 <= i < |ggShape| ==> ggShape[i] == if i % 2 == 0 then Knob else Socket)
    && (forall g :: g in ggMap ==> g < n && ggMap[g] < |groupGroups| && g in groupGroups[ggMap[g]])
    && (forall i, g {:trigger g in groupGroups[i]} :: 0 <= i < |groupGroups| && g in groupGroups[i] ==> g in ggMap && ggMap[g] == i)
  }

  /** Neighbouring groups are coloured together and share id / 2. */
  ghost predicate SameComponent(gc: seq<set<nat>>, ggMap: map<nat, nat>) {
    forall g, c {:trigger c in gc[g]} :: g in ggMap && g < |gc| && c in gc[g] ==> c in ggMap && ggMap[c] / 2 == ggMap[g] / 2
  }

  /** Colours of groups such that neighbouring groups differ: the group graph
      is bipartite. */
  predicate GroupColouring(gc: seq<set<nat>>, gcol: seq<bool>) {
    |gcol| == |gc| && forall g :: 0 <= g < |gc| ==> forall c :: c in gc[g] ==> c < |gcol| && gcol[g] != gcol[c]
  }

  /** Why the parities are right: component k was walked from roots[k], and
      under any colouring a coloured group has the colour of its component's
      root exactly when its group-group id is even. */
  ghost predicate RootedParity(gc: seq<set<nat>>, ggMap: map<nat, nat>, roots: seq<nat>) {
    && (forall k :: 0 <= k < |roots| ==> roots[k] < |gc|)
    && (forall g :: g in ggMap ==> ggMap[g] / 2 < |roots|)
    && (forall gcol :: GroupColouring(gc, gcol) ==>
          forall g :: g in ggMap && g < |gc| ==> (gcol[g] == gcol[roots[ggMap[g] / 2]] <==> ggMap[g] % 2 == 0))
  }

  /** group_group_map after one component's even half gets the id `id` and its
      odd half the next one. */
  function Extend(ggMap: map<nat, nat>, even: set<nat>, odd: set<nat>, id: nat): map<nat, nat> {
    (ggMap + map x | x in even :: id) + map x | x in odd :: id + 1
  }

  lemma ExtendAt(ggMap: map<nat, nat>, even: set<nat>, odd: set<nat>, k: nat, x: nat)
    ensures x in Extend(ggMap, even, odd, 2 * k) <==> x in ggMap || x in even || x in odd
    ensures x in odd ==> Extend(ggMap, even, odd, 2 * k)[x] == 2 * k + 1
    ensures x in even && x !in odd ==> Extend(ggMap, even, odd, 2 * k)[x] == 2 * k
    ensures x in ggMap && x !in even && x !in odd ==> Extend(ggMap, even, odd, 2 * k)[x] == ggMap[x]
    ensures x in even || x in odd ==> Extend(ggMap, even, odd, 2 * k)[x] / 2 == k
  {
  }

  /** What the walk of one component delivers (see LayerComponent): groups
      outside done, closed under neighbourhood up to done... */
  ghost predicate ComponentClosed(gc: seq<set<nat>>, done: set<nat>, depths: map<nat, nat>) {
    && (forall g :: g in depths ==> g < |gc| && g !in done)
    && (forall g, c {:trigger c in gc[g]} :: g in depths && g < |gc| && c in gc[g] ==> c in depths || c in done)
  }

  /** ... split by the parity of their depth ... */
  ghost predicate ComponentSplit(depths: map<nat, nat>, even: set<nat>, odd: set<nat>) {
    && (forall g :: g in even <==> g in depths && depths[g] % 2 == 0)
    && (forall g :: g in odd <==> g in depths && depths[g] % 2 == 1)
  }

  /** ... and hanging from start by parents one layer up. */
  ghost predicate ComponentTree(gc: seq<set<nat>>, start: nat, depths: map<nat, nat>, cparent: map<nat, nat>) {
    start in depths && depths[start] == 0 && DepthTree(gc, start, depths, cparent) && cparent.Keys <= depths.Keys
  }

  lemma AddNumbered(gc: seq<set<nat>>, ggMap: map<nat, nat>, groupGroups: seq<set<nat>>, ggShape: seq<Shape>, k: nat,
                    even: set<nat>, odd: set<nat>)
    requires Numbered(|gc|, ggMap, groupGroups, ggShape) && |groupGroups| == 2 * k
    requires forall x :: x in even || x in odd ==> x < |gc| && x !in ggMap
    requires even * odd == {}
    ensures Numbered(|gc|, Extend(ggMap, even, odd, 2 * k), groupGroups + [even, odd], ggShape + [Knob, Socket])
  {
    var m := Extend(ggMap, even, odd, 2 * k);
    var gg := groupGroups + [even, odd];
    forall i, g | 0 <= i < |gg| && g in gg[i] ensures g in m && m[g] == i {
      ExtendAt(ggMap, even, odd, k, g);
      if i < |groupGroups| {
        assert gg[i] == groupGroups[i];
        assert g in ggMap && g !in even && g !in odd;
      } else if i == 2 * k {
        assert gg[i] == even;
        assert g !in even * odd;
      } else {
        assert gg[i] == odd;
      }
    }
  }

  lemma AddSameComponent(gc: seq<set<nat>>, ggMap: map<nat, nat>, k: nat, depths: map<nat, nat>, even: set<nat>, odd: set<nat>)
    requires GraphWellFormed(gc) && GraphSymmetric(gc)
    requires SameComponent(gc, ggMap) && forall g :: g in ggMap ==> g < |gc|
    requires ComponentClosed(gc, ggMap.Keys, depths) && ComponentSplit(depths, even, odd)
    ensures SameComponent(gc, Extend(ggMap, even, odd, 2 * k))
  {
    var m := Extend(ggMap, even, odd, 2 * k);
    forall g, c | g in m && g < |gc| && c in gc[g] ensures c in m && m[c] / 2 == m[g] / 2 {
      ExtendAt(ggMap, even, odd, k, g);
      ExtendAt(ggMap, even, odd, k, c);
      if g in depths {
        if c !in depths {
          assert false;
        }
      } else {
        assert g in ggMap && c in ggMap;
        assert g !in even && g !in odd && c !in even && c !in odd;
      }
    }
  }

  /** The walk's depth labels give the colouring: under any colouring a group
      of the component has the start's colour exactly when its depth is even. */
  lemma {:induction false} ComponentParity(gc: seq<set<nat>>, start: nat, depths: map<nat, nat>, cparent: map<nat, nat>,
                                           gcol: seq<bool>, g: nat)
    requires ComponentTree(gc, start, depths, cparent) && GroupColouring(gc, gcol)
    requires forall x :: x in depths ==> x < |gc|
    requires g in depths
    ensures g < |gcol| && start < |gcol|
    ensures gcol[g] == gcol[start] <==> depths[g] % 2 == 0
    decreases depths[g]
  {
    if g != start {
      var p := cparent[g];
      assert p in depths && p < |gc| && g in gc[p] && depths[g] == depths[p] + 1;
      ComponentParity(gc, start, depths, cparent, gcol, p);
      assert gcol[p] != gcol[g];
      ParityStep(depths[p]);
    }
  }

  lemma ParityStep(d: nat)
    ensures (d + 1) % 2 == 0 <==> d % 2 == 1
  {
  }

  lemma AddRootedParity(gc: seq<set<nat>>, ggMap: map<nat, nat>, roots: seq<nat>,
                        start: nat, depths: map<nat, nat>, cparent: map<nat, nat>, even: set<nat>, odd: set<nat>)
    requires RootedParity(gc, ggMap, roots)
    requires forall g :: g in depths ==> g < |gc| && g !in ggMap
    requires ComponentTree(gc, start, depths, cparent) && ComponentSplit(depths, even, odd)
    ensures RootedParity(gc, Extend(ggMap, even, odd, 2 * |roots|), roots + [start])
  {
    var k := |roots|;
    var m, roots' := Extend(ggMap, even, odd, 2 * k), roots + [start];
    forall g | g in m ensures m[g] / 2 < |roots'| {
      ExtendAt(ggMap, even, odd, k, g);
    }
    forall gcol, g | GroupColouring(gc, gcol) && g in m && g < |gc|
      ensures gcol[g] == gcol[roots'[m[g] / 2]] <==> m[g] % 2 == 0
    {
      ExtendAt(ggMap, even, odd, k, g);
      if g in depths {
        ComponentParity(gc, start, depths, cparent, gcol, g);
        assert roots'[m[g] / 2] == start;
        if depths[g] % 2 == 0 {
          assert g in even && g !in odd && m[g] == 2 * k;
        } else {
          assert g in odd && m[g] == 2 * k + 1;
        }
      } else {
        assert g in ggMap && m[g] == ggMap[g];
        assert roots'[m[g] / 2] == roots[ggMap[g] / 2];
      }
    }
  }

  /** Neighbouring groups get ids of opposite parity under any colouring. */
  lemma OppositeParity(gc: seq<set<nat>>, ggMap: map<nat, nat>, roots: seq<nat>, gcol: seq<bool>, g: nat, c: nat)
    requires RootedParity(gc, ggMap, roots) && GroupColouring(gc, gcol) && SameComponent(gc, ggMap)
    requires forall x :: x in ggMap ==> x < |gc|
    requires g in ggMap && c in gc[g]
    ensures c in ggMap && (ggMap[g] % 2 == 0) != (ggMap[c] % 2 == 0)
  {
    assert c in ggMap && ggMap[c] / 2 == ggMap[g] / 2;
    assert gcol[g] != gcol[c];
  }

  /** The group is a key of group_connections: some edge of it is connected. */
  predicate HasLinks(gc: seq<set<nat>>, g: nat)
    requires g < |gc|
  {
    gc[g] != {}
  }

  /** Every group of a component walked from a group with neighbours has
      neighbours itself: it is linked back to its parent. */
  lemma ComponentLinked(gc: seq<set<nat>>, start: nat, depths: map<nat, nat>, cparent: map<nat, nat>)
    requires GraphWellFormed(gc) && GraphSymmetric(gc)
    requires ComponentTree(gc, start, depths, cparent) && start < |gc| && HasLinks(gc, start)
    requires forall g :: g in depths ==> g < |gc|
    ensures forall g :: g in depths ==> HasLinks(gc, g)
  {
    forall g | g in depths ensures HasLinks(gc, g) {
      if g != start {
        var p := cparent[g];
        assert g in gc[p] && p in gc[g];
      }
    }
  }

  /** What the third step's loop keeps once the groups below g are handled:
      exactly the groups below g with neighbours are coloured, and the
      colouring is numbered, component-closed and depth-parity based. */
  ghost predicate ColouredBelow(gc: seq<set<nat>>, g: nat, ggMap: map<nat, nat>, groupGroups: seq<set<nat>>, ggShape: seq<Shape>,
                                roots: seq<nat>) {
    && g <= |gc|
    && (forall x: nat :: x < g && HasLinks(gc, x) ==> x in ggMap)
    && (forall x :: x in ggMap ==> x < |gc| && HasLinks(gc, x))
    && |groupGroups| == 2 * |roots|
    && Numbered(|gc|, ggMap, groupGroups, ggShape)
    && SameComponent(gc, ggMap)
    && RootedParity(gc, ggMap, roots)
  }

  /** The spanning forest behind the numbering: component k was walked from
      roots[k], which gets group-group 2k; every other coloured group hangs
      from a neighbour one layer up with the same id / 2, and a group's id is
      even exactly when its depth below its root is. */
  ghost predicate Forest(gc: seq<set<nat>>, ggMap: map<nat, nat>, roots: seq<nat>, depthOf: map<nat, nat>, parentOf: map<nat, nat>) {
    depthOf.Keys == ggMap.Keys && ForestRoots(ggMap, roots, depthOf) && ForestIds(ggMap, roots, depthOf, parentOf)
    && ForestParents(gc, ggMap, depthOf, parentOf)
  }

  /** Root k has id 2k and depth 0. */
  ghost predicate ForestRoots(ggMap: map<nat, nat>, roots: seq<nat>, depthOf: map<nat, nat>) {
    forall k :: 0 <= k < |roots| ==> roots[k] in ggMap && ggMap[roots[k]] == 2 * k && roots[k] in depthOf && depthOf[roots[k]] == 0
  }

  /** Every coloured group belongs to a walked component, its id has the
      parity of its depth, and it is that component's root or has a parent. */
  ghost predicate ForestIds(ggMap: map<nat, nat>, roots: seq<nat>, depthOf: map<nat, nat>, parentOf: map<nat, nat>) {
    forall g :: g in ggMap ==>
      && ggMap[g] / 2 < |roots| && g in depthOf && ggMap[g] % 2 == depthOf[g] % 2
      && (g == roots[ggMap[g] / 2] || g in parentOf)
  }

  /** A parent is a coloured neighbour one layer up, in the same component. */
  ghost predicate ForestParents(gc: seq<set<nat>>, ggMap: map<nat, nat>, depthOf: map<nat, nat>, parentOf: map<nat, nat>) {
    forall g {:trigger parentOf[g]} :: g in parentOf ==>
      && g in ggMap && parentOf[g] in ggMap && parentOf[g] < |gc| && g in gc[parentOf[g]]
      && g in depthOf && parentOf[g] in depthOf && depthOf[g] == depthOf[parentOf[g]] + 1
      && ggMap[parentOf[g]] / 2 == ggMap[g] / 2
  }

  /** Appending the component walked from start as the next pair of ids grows
      the forest by that component's tree. */
  lemma AddForest(gc: seq<set<nat>>, ggMap: map<nat, nat>, roots: seq<nat>, depthOf: map<nat, nat>, parentOf: map<nat, nat>,
                  start: nat, depths: map<nat, nat>, cparent: map<nat, nat>, even: set<nat>, odd: set<nat>)
    requires Forest(gc, ggMap, roots, depthOf, parentOf)
    requires forall g :: g in depths ==> g < |gc| && g !in ggMap
    requires ComponentTree(gc, start, depths, cparent) && ComponentSplit(depths, even, odd) && even * odd == {}
    ensures Forest(gc, Extend(ggMap, even, odd, 2 * |roots|), roots + [start], depthOf + depths, parentOf + cparent)
  {
    var k := |roots|;
    forall g ensures g in depthOf + depths <==> g in Extend(ggMap, even, odd, 2 * k) {
      ExtendAt(ggMap, even, odd, k, g);
    }
    AddForestRoots(gc, ggMap, roots, depthOf, parentOf, start, depths, cparent, even, odd);
    AddForestIds(gc, ggMap, roots, depthOf, parentOf, start, depths, cparent, even, odd);
    AddForestParents(gc, ggMap, roots, depthOf, parentOf, start, depths, cparent, even, odd);
  }

  lemma AddForestRoots(gc: seq<set<nat>>, ggMap: map<nat, nat>, roots: seq<nat>, depthOf: map<nat, nat>, parentOf: map<nat, nat>,
                       start: nat, depths: map<nat, nat>, cparent: map<nat, nat>, even: set<nat>, odd: set<nat>)
    requires ForestRoots(ggMap, roots, depthOf)
    requires forall g :: g in depths ==> g < |gc| && g !in ggMap
    requires ComponentTree(gc, start, depths, cparent) && ComponentSplit(depths, even, odd) && even * odd == {}
    ensures ForestRoots(Extend(ggMap, even, odd, 2 * |roots|), roots + [start], depthOf + depths)
  {
    var k := |roots|;
    var m, roots', depthOf' := Extend(ggMap, even, odd, 2 * k), roots + [start], depthOf + depths;
    forall i | 0 <= i < |roots'|
      ensures roots'[i] in m && m[roots'[i]] == 2 * i && roots'[i] in depthOf' && depthOf'[roots'[i]] == 0
    {
      ExtendAt(ggMap, even, odd, k, roots'[i]);
      if i == k {
        assert roots'[i] == start && start in even && start !in odd;
      } else {
        assert roots'[i] == roots[i] && roots[i] !in depths;
      }
    }
  }

  lemma AddForestIds(gc: seq<set<nat>>, ggMap: map<nat, nat>, roots: seq<nat>, depthOf: map<nat, nat>, parentOf: map<nat, nat>,
                     start: nat, depths: map<nat, nat>, cparent: map<nat, nat>, even: set<nat>, odd: set<nat>)
    requires ForestIds(ggMap, roots, depthOf, parentOf)
    requires forall g :: g in depths ==> g < |gc| && g !in ggMap
    requires ComponentTree(gc, start, depths, cparent) && ComponentSplit(depths, even, odd) && even * odd == {}
    ensures ForestIds(Extend(ggMap, even, odd, 2 * |roots|), roots + [start], depthOf + depths, parentOf + cparent)
  {
    var k := |roots|;
    var m, roots', depthOf' := Extend(ggMap, even, odd, 2 * k), roots + [start], depthOf + depths;
    forall g | g in m
      ensures m[g] / 2 < |roots'| && g in depthOf' && m[g] % 2 == depthOf'[g] % 2
      ensures g == roots'[m[g] / 2] || g in parentOf + cparent
    {
      ExtendAt(ggMap, even, odd, k, g);
      if g in depths {
        assert roots'[k] == start;
        if depths[g] % 2 == 0 {
          assert g in even && g !in odd;
        }
      } else {
        assert g in ggMap && g !in even && g !in odd && m[g] == ggMap[g];
        assert roots'[ggMap[g] / 2] == roots[ggMap[g] / 2];
      }
    }
  }

  lemma AddForestParents(gc: seq<set<nat>>, ggMap: map<nat, nat>, roots: seq<nat>, depthOf: map<nat, nat>, parentOf: map<nat, nat>,
                         start: nat, depths: map<nat, nat>, cparent: map<nat, nat>, even: set<nat>, odd: set<nat>)
    requires ForestParents(gc, ggMap, depthOf, parentOf)
    requires forall g :: g in depths ==> g < |gc| && g !in ggMap
    requires ComponentTree(gc, start, depths, cparent) && ComponentSplit(depths, even, odd) && even * odd == {}
    ensures ForestParents(gc, Extend(ggMap, even, odd, 2 * |roots|), depthOf + depths, parentOf + cparent)
  {
    var k := |roots|;
    var m, depthOf', parentOf' := Extend(ggMap, even, odd, 2 * k), depthOf + depths, parentOf + cparent;
    forall g | g in parentOf'
      ensures g in m && parentOf'[g] in m && parentOf'[g] < |gc| && g in gc[parentOf'[g]]
      ensures g in depthOf' && parentOf'[g] in depthOf' && depthOf'[g] == depthOf'[parentOf'[g]] + 1
      ensures m[parentOf'[g]] / 2 == m[g] / 2
    {
      if g in cparent {
        ExtendAt(ggMap, even, odd, k, g);
        ExtendAt(ggMap, even, odd, k, cparent[g]);
      } else {
        assert g !in depths && parentOf[g] !in depths;
        ExtendAt(ggMap, even, odd, k, g);
        ExtendAt(ggMap, even, odd, k, parentOf[g]);
      }
    }
  }

  /** Walks lead from a coloured group to the root of its component and back:
      up and down the tree, using that links go both ways. */
  lemma {:induction false} RootWalks(gc: seq<set<nat>>, ggMap: map<nat, nat>, roots: seq<nat>, depthOf: map<nat, nat>,
                                     parentOf: map<nat, nat>, g: nat)
    requires GraphWellFormed(gc) && GraphSymmetric(gc) && Forest(gc, ggMap, roots, depthOf, parentOf)
    requires forall x :: x in ggMap ==> x < |gc|
    requires g in ggMap
    ensures ggMap[g] / 2 < |roots|
    ensures Reachable(gc, roots[ggMap[g] / 2], g) && Reachable(gc, g, roots[ggMap[g] / 2])
    decreases depthOf[g]
  {
    var root := roots[ggMap[g] / 2];
    if g in parentOf {
      var p := parentOf[g];
      RootWalks(gc, ggMap, roots, depthOf, parentOf, p);
      assert roots[ggMap[p] / 2] == root;
      assert g in gc[p] && p in gc[g];
      ReachableStep(gc, root, p, g);
      ReachableBack(gc, g, p, root);
    } else {
      ReachableSelf(gc, g);
    }
  }

  /** A walk never leaves the component it starts in: every step keeps
      id / 2. */
  lemma {:induction false} WalkSameId(gc: seq<set<nat>>, ggMap: map<nat, nat>, w: seq<nat>)
    requires SameComponent(gc, ggMap) && GroupWalk(gc, w) && w[0] in ggMap
    ensures w[|w| - 1] in ggMap && ggMap[w[|w| - 1]] / 2 == ggMap[w[0]] / 2
    decreases |w|
  {
    if |w| > 1 {
      var v := w[..|w| - 1];
      assert GroupWalk(gc, v) by {
        forall i | 0 <= i < |v| - 1 ensures v[i + 1] in gc[v[i]] {
          assert v[i] == w[i] && v[i + 1] == w[i + 1];
        }
      }
      WalkSameId(gc, ggMap, v);
      assert w[|w| - 1] in gc[w[|w| - 2]] && v[|v| - 1] == w[|w| - 2];
    }
  }

  /** Two coloured groups share id / 2 exactly when they lie in one connected
      component of the group graph: the numbering counts components. */
  lemma ComponentsReachable(gc: seq<set<nat>>, ggMap: map<nat, nat>, roots: seq<nat>, depthOf: map<nat, nat>,
                            parentOf: map<nat, nat>, g: nat, c: nat)
    requires GraphWellFormed(gc) && GraphSymmetric(gc) && Forest(gc, ggMap, roots, depthOf, parentOf)
    requires SameComponent(gc, ggMap) && forall x :: x in ggMap ==> x < |gc|
    requires g in ggMap && c in ggMap
    ensures ggMap[g] / 2 == ggMap[c] / 2 <==> Reachable(gc, g, c)
  {
    if ggMap[g] / 2 == ggMap[c] / 2 {
      RootWalks(gc, ggMap, roots, depthOf, parentOf, g);
      RootWalks(gc, ggMap, roots, depthOf, parentOf, c);
      ReachableTrans(gc, g, roots[ggMap[g] / 2], c);
    }
    if Reachable(gc, g, c) {
      var w :| GroupWalk(gc, w) && w[0] == g && w[|w| - 1] == c;
      WalkSameId(gc, ggMap, w);
    }
  }

  /** A group already coloured, or without neighbours, is passed over. */
  lemma SkipGroup(gc: seq<set<nat>>, g: nat, ggMap: map<nat, nat>, groupGroups: seq<set<nat>>, ggShape: seq<Shape>,
                  roots: seq<nat>)
    requires ColouredBelow(gc, g, ggMap, groupGroups, ggShape, roots) && g < |gc|
    requires g in ggMap || !HasLinks(gc, g)
    ensures ColouredBelow(gc, g + 1, ggMap, groupGroups, ggShape, roots)
  {
  }

  /** Colouring the component walked from g: its even half becomes the next
      group-group (Knob), its odd half the one after (Socket). */
  lemma AddComponent(gc: seq<set<nat>>, g: nat, ggMap: map<nat, nat>, groupGroups: seq<set<nat>>, ggShape: seq<Shape>,
                     roots: seq<nat>,
                     depths: map<nat, nat>, cparent: map<nat, nat>, even: set<nat>, odd: set<nat>)
    requires GraphWellFormed(gc) && GraphSymmetric(gc)
    requires ColouredBelow(gc, g, ggMap, groupGroups, ggShape, roots) && g < |gc|
    requires g !in ggMap && HasLinks(gc, g)
    requires ComponentTree(gc, g, depths, cparent) && ComponentClosed(gc, ggMap.Keys, depths)
    requires ComponentSplit(depths, even, odd) && even * odd == {}
    ensures ColouredBelow(gc, g + 1, Extend(ggMap, even, odd, |groupGroups|), groupGroups + [even, odd], ggShape + [Knob, Socket],
                          roots + [g])
  {
    var k := |roots|;
    var m := Extend(ggMap, even, odd, 2 * k);
    ComponentLinked(gc, g, depths, cparent);
    AddNumbered(gc, ggMap, groupGroups, ggShape, k, even, odd);
    AddSameComponent(gc, ggMap, k, depths, even, odd);
    AddRootedParity(gc, ggMap, roots, g, depths, cparent, even, odd);
    forall x: nat | x < g + 1 && HasLinks(gc, x) ensures x in m {
      ExtendAt(ggMap, even, odd, k, x);
    }
    forall x | x in m ensures x < |gc| && HasLinks(gc, x) {
      ExtendAt(ggMap, even, odd, k, x);
    }
  }

  /** After the last group: the third step's postconditions. */
  lemma ColouredAll(gc: seq<set<nat>>, ggMap: map<nat, nat>, groupGroups: seq<set<nat>>, ggShape: seq<Shape>,
                    roots: seq<nat>)
    requires GraphWellFormed(gc) && GraphSymmetric(gc)
    requires ColouredBelow(gc, |gc|, ggMap, groupGroups, ggShape, roots)
    ensures forall g: nat :: g in ggMap <==> g < |gc| && HasLinks(gc, g)
    ensures forall gcol :: GroupColouring(gc, gcol) ==>
      forall g :: g in ggMap ==> forall c :: c in gc[g] ==> c in ggMap && ggShape[ggMap[g]] != ggShape[ggMap[c]]
  {
    forall gcol, g, c | GroupColouring(gc, gcol) && g in ggMap && c in gc[g]
      ensures c in ggMap && ggShape[ggMap[g]] != ggShape[ggMap[c]]
    {
      OppositeParity(gc, ggMap, roots, gcol, g, c);
      assert ggShape[ggMap[g]] == if ggMap[g] % 2 == 0 then Knob else Socket;
      assert ggShape[ggMap[c]] == if ggMap[c] % 2 == 0 then Knob else Socket;
    }
  }

  /** One pass of the third step's loop, for group g: a group already
      coloured or without neighbours is passed over; otherwise its component
      is walked, split by depth parity, and appended as two new group-groups. */
  method ColourFrom(gc: seq<set<nat>>, g: nat, ggMap: map<nat, nat>, groupGroups: seq<set<nat>>, ggShape: seq<Shape>,
                    ghost roots: seq<nat>, ghost depthOf: map<nat, nat>, ghost parentOf: map<nat, nat>)
    returns (ok: bool, ggMap': map<nat, nat>, groupGroups': seq<set<nat>>, ggShape': seq<Shape>,
             ghost roots': seq<nat>, ghost depthOf': map<nat, nat>, ghost parentOf': map<nat, nat>)
    requires GraphWellFormed(gc) && GraphSymmetric(gc)
    requires ColouredBelow(gc, g, ggMap, groupGroups, ggShape, roots) && g < |gc|
    requires Forest(gc, ggMap, roots, depthOf, parentOf)
    ensures ok
    ensures ColouredBelow(gc, g + 1, ggMap', groupGroups', ggShape', roots')
    ensures Forest(gc, ggMap', roots', depthOf', parentOf')
  {
    if g in ggMap || !HasLinks(gc, g) {
      SkipGroup(gc, g, ggMap, groupGroups, ggShape, roots);
      return true, ggMap, groupGroups, ggShape, roots, depthOf, parentOf;
    }
    var layers, depths, cparent := LayerComponent(gc, g, ggMap.Keys);
    var even, odd := SplitParity(layers);
    ParitySplit(layers, depths, even, odd);
    if even * odd != {} {
      ok := false;
      return;
    }
    AddComponent(gc, g, ggMap, groupGroups, ggShape, roots, depths, cparent, even, odd);
    AddForest(gc, ggMap, roots, depthOf, parentOf, g, depths, cparent, even, odd);
    ok := true;
    ggMap' := Extend(ggMap, even, odd, |groupGroups|);
    groupGroups', ggShape' := groupGroups + [even, odd], ggShape + [Knob, Socket];
    roots', depthOf', parentOf' := roots + [g], depthOf + depths, parentOf + cparent;
  }

  /** collapse_edges' third step: walk, in group-id order, the components of
      the group graph from each group that has neighbours and is not coloured
      yet; component k's even-depth groups get group-group 2k (Knob) and its
      odd-depth groups 2k + 1 (Socket). Exactly the groups with neighbours are
      coloured, the rejection branch is never taken, the numbering is the
      spanning forest of the walks (roots, depths and parents are returned as
      its witness), two coloured groups share id / 2 exactly when a walk of
      links joins them, and if the group graph is bipartite neighbouring
      groups get opposite shapes. */
  method ColourGroups(gc: seq<set<nat>>)
    returns (ok: bool, ggMap: map<nat, nat>, groupGroups: seq<set<nat>>, ggShape: seq<Shape>,
             ghost roots: seq<nat>, ghost depthOf: map<nat, nat>, ghost parentOf: map<nat, nat>)
    requires GraphWellFormed(gc) && GraphSymmetric(gc)
    ensures ok
    ensures forall g: nat :: g in ggMap <==> g < |gc| && HasLinks(gc, g)
    ensures Numbered(|gc|, ggMap, groupGroups, ggShape) && |groupGroups| == 2 * |roots|
    ensures SameComponent(gc, ggMap)
    ensures Forest(gc, ggMap, roots, depthOf, parentOf)
    ensures forall g, c :: g in ggMap && c in ggMap ==> (ggMap[g] / 2 == ggMap[c] / 2 <==> Reachable(gc, g, c))
    ensures forall gcol :: GroupColouring(gc, gcol) ==>
      forall g :: g in ggMap ==> forall c :: c in gc[g] ==> c in ggMap && ggShape[ggMap[g]] != ggShape[ggMap[c]]
  {
    ggMap, groupGroups, ggShape := map[], [], [];
    roots, depthOf, parentOf := [], map[], map[];
    for g := 0 to |gc|
      invariant ColouredBelow(gc, g, ggMap, groupGroups, ggShape, roots)
      invariant Forest(gc, ggMap, roots, depthOf, parentOf)
    {
      ok, ggMap, groupGroups, ggShape, roots, depthOf, parentOf :=
        ColourFrom(gc, g, ggMap, groupGroups, ggShape, roots, depthOf, parentOf);
    }
    ok := true;
    ColouredAll(gc, ggMap, groupGroups, ggShape, roots);
    forall g, c | g in ggMap && c in ggMap ensures ggMap[g] / 2 == ggMap[c] / 2 <==> Reachable(gc, g, c) {
      ComponentsReachable(gc, ggMap, roots, depthOf, parentOf, g, c);
    }
  }

  /** Every group-group id has a shape. */
  predicate ShapedIds(ggMap: map<nat, nat>, ggShape: seq<Shape>) {
    forall g :: g in ggMap ==> ggMap[g] < |ggShape|
  }

  /** Edge e as the fourth step leaves it: an edge of a coloured group takes
      its group-group's id / 2 as group and the group-group's shape; any other
      edge is left as it was. */
  function Target(edges: seq<Edge>, groupOf: map<nat, nat>, ggMap: map<nat, nat>, ggShape: seq<Shape>, e: nat): Edge
    requires e < |edges| && ShapedIds(ggMap, ggShape)
  {
    if e in groupOf && groupOf[e] in ggMap then
      var k := ggMap[groupOf[e]];
      edges[e].(group := Some(k / 2), shape := ggShape[k])
    else
      edges[e]
  }

  /** The arena after the fourth step. */
  function Assigned(edges: seq<Edge>, groupOf: map<nat, nat>, ggMap: map<nat, nat>, ggShape: seq<Shape>): seq<Edge>
    requires ShapedIds(ggMap, ggShape)
  {
    seq(|edges|, e requires 0 <= e < |edges| => Target(edges, groupOf, ggMap, ggShape, e))
  }

  /** The edges in written have been given their final group and shape; the
      others are as in edges0. */
  ghost predicate WrittenOn(edges0: seq<Edge>, edges: seq<Edge>, groupOf: map<nat, nat>, ggMap: map<nat, nat>, ggShape: seq<Shape>,
                            written: set<nat>)
    requires ShapedIds(ggMap, ggShape)
  {
    |edges| == |edges0| &&
    forall e :: 0 <= e < |edges| ==> edges[e] == if e in written then Target(edges0, groupOf, ggMap, ggShape, e) else edges0[e]
  }

  /** The innermost loop of the fourth step: every edge of group g, which
      belongs to group-group k, gets group k / 2 and shape ggShape[k]. */
  method AssignGroup(edges0: seq<Edge>, edges: seq<Edge>, groupOf: map<nat, nat>, groups: seq<set<nat>>,
                     ggMap: map<nat, nat>, ggShape: seq<Shape>, k: nat, g: nat, ghost written: set<nat>)
    returns (edges': seq<Edge>, ghost written': set<nat>)
    requires GroupsPartition(edges0, groupOf, groups) && ShapedIds(ggMap, ggShape)
    requires g < |groups| && g in ggMap && ggMap[g] == k
    requires WrittenOn(edges0, edges, groupOf, ggMap, ggShape, written)
    ensures WrittenOn(edges0, edges', groupOf, ggMap, ggShape, written')
    ensures forall e {:trigger e in written'} :: e in written' <==> e in written || e in groups[g]
  {
    var es := Enumerate(groups[g]);
    edges', written' := edges, written;
    for l := 0 to |es|
      invariant WrittenOn(edges0, edges', groupOf, ggMap, ggShape, written')
      invariant forall e {:trigger e in written'} :: e in written' <==> e in written || e in es[..l]
    {
      var e := es[l];
      assert e in es;
      assert e in groups[g];
      edges' := edges'[e := edges'[e].(group := Some(k / 2), shape := ggShape[k])];
      written' := written' + {e};
      assert es[..l + 1] == es[..l] + [e];
    }
    assert es[..|es|] == es;
  }

  /** The middle loop of the fourth step: every group of group-group k. */
  method AssignGroupGroup(edges0: seq<Edge>, edges: seq<Edge>, groupOf: map<nat, nat>, groups: seq<set<nat>>,
                          ggMap: map<nat, nat>, groupGroups: seq<set<nat>>, ggShape: seq<Shape>, k: nat, ghost written: set<nat>)
    returns (edges': seq<Edge>, ghost written': set<nat>)
    requires GroupsPartition(edges0, groupOf, groups) && Numbered(|groups|, ggMap, groupGroups, ggShape)
    requires k < |groupGroups|
    requires WrittenOn(edges0, edges, groupOf, ggMap, ggShape, written)
    ensures WrittenOn(edges0, edges', groupOf, ggMap, ggShape, written')
    ensures forall e {:trigger e in written'} :: e in written' <==> e in written || (e in groupOf && groupOf[e] in groupGroups[k])
  {
    var gs := Enumerate(groupGroups[k]);
    edges', written' := edges, written;
    for j := 0 to |gs|
      invariant WrittenOn(edges0, edges', groupOf, ggMap, ggShape, written')
      invariant forall e {:trigger e in written'} :: e in written' <==> e in written || (e in groupOf && groupOf[e] in gs[..j])
    {
      var g := gs[j];
      assert g in gs;
      assert g in groupGroups[k];
      edges', written' := AssignGroup(edges0, edges', groupOf, groups, ggMap, ggShape, k, g, written');
      assert gs[..j + 1] == gs[..j] + [g];
      forall e ensures e in written' <==> e in written || (e in groupOf && groupOf[e] in gs[..j + 1]) {
        assert e in groups[g] <==> e in groupOf && groupOf[e] == g;
      }
    }
    assert gs[..|gs|] == gs;
  }

  /** collapse_edges' fourth step: for each group-group in id order, each of
      its groups and each of their edges, the edge's group becomes the
      group-group's id / 2 and its shape the group-group's shape. Whatever
      order the sets are walked in, the arena ends as Assigned describes. */
  method AssignShapes(edges: seq<Edge>, groupOf: map<nat, nat>, groups: seq<set<nat>>,
                      ggMap: map<nat, nat>, groupGroups: seq<set<nat>>, ggShape: seq<Shape>)
    returns (edges': seq<Edge>)
    requires GroupsPartition(edges, groupOf, groups) && Numbered(|groups|, ggMap, groupGroups, ggShape)
    ensures ShapedIds(ggMap, ggShape) && edges' == Assigned(edges, groupOf, ggMap, ggShape)
  {
    edges' := edges;
    ghost var written: set<nat> := {};
    for k := 0 to |groupGroups|
      invariant WrittenOn(edges, edges', groupOf, ggMap, ggShape, written)
      invariant forall e {:trigger e in written} :: e in written <==> e in groupOf && groupOf[e] in ggMap && ggMap[groupOf[e]] < k
    {
      edges', written := AssignGroupGroup(edges, edges', groupOf, groups, ggMap, groupGroups, ggShape, k, written);
      forall e ensures e in written <==> e in groupOf && groupOf[e] in ggMap && ggMap[groupOf[e]] < k + 1 {
        if e in groupOf && groupOf[e] in ggMap {
          assert groupOf[e] in groupGroups[ggMap[groupOf[e]]];
        }
      }
    }
  }

  /** Some edge of group g. */
  ghost function Member(groups: seq<set<nat>>, g: nat): (e: nat)
    requires g < |groups| && groups[g] != {}
    ensures e in groups[g]
  {
    var e :| e in groups[g]; e
  }

  /** An edge colouring gives a colouring of the group graph: a group takes
      the colour its edges share. */
  lemma InducedColouring(edges: seq<Edge>, groupOf: map<nat, nat>, groups: seq<set<nat>>, gc: seq<set<nat>>, col: seq<bool>)
    returns (gcol: seq<bool>)
    requires GroupsPartition(edges, groupOf, groups) && ConnectionsSymmetric(edges)
    requires forall col :: EdgeColouring(edges, col) ==>
      forall e: nat, f: nat :: e in groupOf && f in groupOf && groupOf[e] == groupOf[f] ==> e < |col| && f < |col| && col[e] == col[f]
    requires |gc| == |groups|
    requires forall g: nat, c: nat :: g < |gc| ==> (c in gc[g] <==> exists e: nat :: Links(edges, groupOf, e, g, c))
    requires EdgeColouring(edges, col)
    ensures GroupColouring(gc, gcol)
  {
    gcol := seq(|gc|, g requires 0 <= g < |gc| => col[Member(groups, g)]);
    forall g, c | 0 <= g < |gc| && c in gc[g] ensures c < |gcol| && gcol[g] != gcol[c] {
      var e: nat :| Links(edges, groupOf, e, g, c);
      LinkColours(edges, groupOf, groups, col, e, g, c);
    }
  }

  /** The two ends of a link have different colours, and each end has the
      colour of its group's chosen member. */
  lemma LinkColours(edges: seq<Edge>, groupOf: map<nat, nat>, groups: seq<set<nat>>, col: seq<bool>, e: nat, g: nat, c: nat)
    requires GroupsPartition(edges, groupOf, groups)
    requires forall e: nat, f: nat :: e in groupOf && f in groupOf && groupOf[e] == groupOf[f] ==> e < |col| && f < |col| && col[e] == col[f]
    requires EdgeColouring(edges, col) && Links(edges, groupOf, e, g, c)
    ensures g < |groups| && c < |groups|
    ensures col[Member(groups, g)] != col[Member(groups, c)]
  {
    var f := edges[e].connection.value;
    assert col[e] != col[f];
    assert col[e] == col[Member(groups, g)];
    assert col[f] == col[Member(groups, c)];
  }

  /** Conversely a colouring of the group graph colours the edges: an edge
      takes its group's colour. So the edges can be 2-coloured exactly when
      the group graph is bipartite. */
  lemma LiftedColouring(edges: seq<Edge>, groupOf: map<nat, nat>, groups: seq<set<nat>>, gc: seq<set<nat>>, gcol: seq<bool>)
    returns (col: seq<bool>)
    requires GroupsPartition(edges, groupOf, groups) && ConnectionsSymmetric(edges) && MergesWellFormed(edges)
    requires forall e: nat, m {:trigger m in edges[e].merges} :: e in groupOf && e < |edges| && m in edges[e].merges ==> m in groupOf && groupOf[m] == groupOf[e]
    requires |gc| == |groups|
    requires forall g: nat, c: nat :: g < |gc| ==> (c in gc[g] <==> exists e: nat :: Links(edges, groupOf, e, g, c))
    requires GroupColouring(gc, gcol)
    ensures EdgeColouring(edges, col)
  {
    col := seq(|edges|, e requires 0 <= e < |edges| => e in groupOf && gcol[groupOf[e]]);
    forall e, m | 0 <= e < |edges| && m in edges[e].merges && m < |edges| ensures col[e] == col[m] {
      assert e in groupOf;
    }
    forall e | 0 <= e < |edges| && edges[e].connection.Some? && edges[e].connection.value < |edges|
      ensures col[e] != col[edges[e].connection.value]
    {
      var f := edges[e].connection.value;
      assert Links(edges, groupOf, e, groupOf[e], groupOf[f]);
    }
  }

  /** What the fourth step leaves in the arena: the wiring and the unconnected
      edges untouched, every connected edge cut as Knob or Socket and given a
      group, merged edges alike, and the two sides of a seam in one group. */
  ghost predicate Collapsed(edges: seq<Edge>, r: seq<Edge>)
    requires MergesWellFormed(edges) && ConnectionsSymmetric(edges)
  {
    && |r| == |edges|
    && (forall e :: 0 <= e < |edges| ==> r[e].connection == edges[e].connection && r[e].merges == edges[e].merges)
    && (forall e :: 0 <= e < |edges| && edges[e].connection.None? ==> r[e] == edges[e])
    && (forall e :: 0 <= e < |edges| && edges[e].connection.Some? ==> r[e].group.Some? && r[e].shape != Flat)
    && (forall e :: 0 <= e < |edges| ==> forall m :: m in edges[e].merges ==> r[m].group == r[e].group && r[m].shape == r[e].shape)
    && (forall e :: 0 <= e < |edges| && edges[e].connection.Some? ==> r[edges[e].connection.value].group == r[e].group)
  }

  /** Two connected edges end in the same group exactly when a walk along
      merges and connections leads from one to the other: the group number
      names a connected component of the arena. */
  ghost predicate GroupedByJoins(edges: seq<Edge>, r: seq<Edge>)
    requires |r| == |edges|
  {
    forall e: nat, f: nat :: e < |edges| && f < |edges| && edges[e].connection.Some? && edges[f].connection.Some? ==>
      (r[e].group == r[f].group <==> Joined(edges, e, f))
  }

  /** A walk keeps the group: merged edges and the two sides of a seam share
      it in a cut arena. */
  lemma {:induction false} WalkKeepsGroup(edges: seq<Edge>, r: seq<Edge>, w: seq<nat>)
    requires MergesWellFormed(edges) && ConnectionsSymmetric(edges) && Collapsed(edges, r)
    requires EdgeWalk(edges, w) && w[0] < |edges|
    ensures w[|w| - 1] < |edges| && r[w[|w| - 1]].group == r[w[0]].group
    decreases |w|
  {
    if |w| > 1 {
      var v := w[..|w| - 1];
      assert EdgeWalk(edges, v) by {
        forall i | 0 <= i < |v| - 1 ensures Joins(edges, v[i], v[i + 1]) {
          assert v[i] == w[i] && v[i + 1] == w[i + 1];
        }
      }
      WalkKeepsGroup(edges, r, v);
      var a, b := w[|w| - 2], w[|w| - 1];
      assert a == v[|v| - 1] && Joins(edges, a, b);
    }
  }

  /** A walk of links between groups lifts to a walk of edges: between two
      edges of one group through the group, and across a link through the
      seam that made it. */
  lemma {:induction false} LiftWalk(edges: seq<Edge>, groupOf: map<nat, nat>, groups: seq<set<nat>>, gc: seq<set<nat>>,
                                    w: seq<nat>, x: nat, y: nat)
    requires GroupsPartition(edges, groupOf, groups)
    requires GroupsJoined(edges, groupOf)
    requires forall g: nat, c: nat :: g < |gc| ==> (c in gc[g] <==> exists e: nat :: Links(edges, groupOf, e, g, c))
    requires GroupWalk(gc, w) && x in groupOf && groupOf[x] == w[0] && y in groupOf && groupOf[y] == w[|w| - 1]
    ensures Joined(edges, x, y)
    decreases |w|
  {
    if |w| > 1 {
      var v := w[..|w| - 1];
      assert GroupWalk(gc, v) by {
        forall i | 0 <= i < |v| - 1 ensures v[i + 1] in gc[v[i]] {
          assert v[i] == w[i] && v[i + 1] == w[i + 1];
        }
      }
      var b, c := w[|w| - 2], w[|w| - 1];
      assert b == v[|v| - 1] && c in gc[b];
      var e: nat :| Links(edges, groupOf, e, b, c);
      var f := edges[e].connection.value;
      LiftWalk(edges, groupOf, groups, gc, v, x, e);
      assert Joins(edges, e, f);
      JoinedStep(edges, x, e, f);
      JoinedTrans(edges, x, f, y);
    }
  }

  /** Two connected edges given the same group number by the fourth step
      are joined by a walk: their groups lie in one component of the group
      graph, and a walk of links lifts to a walk of edges. */
  lemma SameGroupJoined(edges: seq<Edge>, groupOf: map<nat, nat>, groups: seq<set<nat>>, gc: seq<set<nat>>,
                        ggMap: map<nat, nat>, ggShape: seq<Shape>, e: nat, f: nat)
    requires GroupsPartition(edges, groupOf, groups)
    requires GroupsJoined(edges, groupOf)
    requires forall g: nat, c: nat :: g < |gc| ==> (c in gc[g] <==> exists e: nat :: Links(edges, groupOf, e, g, c))
    requires ShapedIds(ggMap, ggShape) && forall e :: e in groupOf ==> groupOf[e] in ggMap
    requires forall g, c :: g in ggMap && c in ggMap ==> (ggMap[g] / 2 == ggMap[c] / 2 <==> Reachable(gc, g, c))
    requires e < |edges| && f < |edges| && edges[e].connection.Some? && edges[f].connection.Some?
    requires Target(edges, groupOf, ggMap, ggShape, e).group == Target(edges, groupOf, ggMap, ggShape, f).group
    ensures Joined(edges, e, f)
  {
    assert e in groupOf && f in groupOf;
    var g, c := groupOf[e], groupOf[f];
    assert ggMap[g] / 2 == ggMap[c] / 2;
    var w :| GroupWalk(gc, w) && w[0] == g && w[|w| - 1] == c;
    LiftWalk(edges, groupOf, groups, gc, w, e, f);
  }

  /** The fourth step's group numbers name the arena's components. */
  lemma AssignedJoined(edges: seq<Edge>, groupOf: map<nat, nat>, groups: seq<set<nat>>, gc: seq<set<nat>>,
                       ggMap: map<nat, nat>, ggShape: seq<Shape>)
    requires MergesWellFormed(edges) && ConnectionsSymmetric(edges)
    requires GroupsPartition(edges, groupOf, groups)
    requires GroupsJoined(edges, groupOf)
    requires forall g: nat, c: nat :: g < |gc| ==> (c in gc[g] <==> exists e: nat :: Links(edges, groupOf, e, g, c))
    requires ShapedIds(ggMap, ggShape) && forall e :: e in groupOf ==> groupOf[e] in ggMap
    requires forall g, c :: g in ggMap && c in ggMap ==> (ggMap[g] / 2 == ggMap[c] / 2 <==> Reachable(gc, g, c))
    requires Collapsed(edges, Assigned(edges, groupOf, ggMap, ggShape))
    ensures GroupedByJoins(edges, Assigned(edges, groupOf, ggMap, ggShape))
  {
    var r := Assigned(edges, groupOf, ggMap, ggShape);
    forall e: nat, f: nat | e < |edges| && f < |edges| && edges[e].connection.Some? && edges[f].connection.Some?
      ensures r[e].group == r[f].group <==> Joined(edges, e, f)
    {
      if Joined(edges, e, f) {
        var w :| EdgeWalk(edges, w) && w[0] == e && w[|w| - 1] == f;
        WalkKeepsGroup(edges, r, w);
      }
      if r[e].group == r[f].group {
        assert r[e] == Target(edges, groupOf, ggMap, ggShape, e) && r[f] == Target(edges, groupOf, ggMap, ggShape, f);
        SameGroupJoined(edges, groupOf, groups, gc, ggMap, ggShape, e, f);
      }
    }
  }

  /** A cut arena is a consistent cut of itself: it keeps the merges and
      connections it was cut from, so the same walks join its edges. */
  lemma CutItself(edges: seq<Edge>, r: seq<Edge>)
    requires MergesWellFormed(edges) && ConnectionsSymmetric(edges)
    requires Collapsed(edges, r) && GroupedByJoins(edges, r)
    ensures MergesWellFormed(r) && ConnectionsSymmetric(r)
    ensures Collapsed(r, r) && GroupedByJoins(r, r)
  {
    forall e: nat, f: nat ensures Joined(edges, e, f) <==> Joined(r, e, f) {
      JoinedSameLinks(edges, r, e, f);
    }
  }

  /** The two sides of every seam have opposite shapes. */
  ghost predicate SeamsOpposite(edges: seq<Edge>, r: seq<Edge>)
    requires ConnectionsSymmetric(edges) && |r| == |edges|
  {
    forall e :: 0 <= e < |edges| && edges[e].connection.Some? ==> r[edges[e].connection.value].shape != r[e].shape
  }

  /** A cut arena whose seams are all opposite is itself an edge colouring
      (Knob against Socket): opposite seams are possible only when the edges
      can be 2-coloured. */
  lemma ShapesColour(edges: seq<Edge>, r: seq<Edge>)
    requires MergesWellFormed(edges) && ConnectionsSymmetric(edges)
    requires Collapsed(edges, r) && SeamsOpposite(edges, r)
    ensures EdgeColouring(edges, seq(|r|, e requires 0 <= e < |r| => r[e].shape == Knob))
  {
    var col := seq(|r|, e requires 0 <= e < |r| => r[e].shape == Knob);
    forall e | 0 <= e < |edges| && edges[e].connection.Some? && edges[e].connection.value < |edges|
      ensures col[e] != col[edges[e].connection.value]
    {
      var f := edges[e].connection.value;
      assert edges[f].connection.Some?;
      assert r[e].shape != Flat && r[f].shape != Flat && r[e].shape != r[f].shape;
    }
  }

  /** Every seam is a link of the group graph: both sides are grouped and
      the partner's group is a neighbour of the edge's group. */
  ghost predicate SeamsLinked(edges: seq<Edge>, groupOf: map<nat, nat>, gc: seq<set<nat>>) {
    forall e :: 0 <= e < |edges| && edges[e].connection.Some? ==>
      && e in groupOf && edges[e].connection.value in groupOf && groupOf[e] < |gc|
      && groupOf[edges[e].connection.value] in gc[groupOf[e]]
  }

  lemma LinkedSeams(edges: seq<Edge>, groupOf: map<nat, nat>, groups: seq<set<nat>>, gc: seq<set<nat>>)
    requires GroupsPartition(edges, groupOf, groups) && ConnectionsSymmetric(edges)
    requires |gc| == |groups|
    requires forall g: nat, c: nat :: g < |gc| ==> (c in gc[g] <==> exists e: nat :: Links(edges, groupOf, e, g, c))
    ensures SeamsLinked(edges, groupOf, gc)
  {
    forall e | 0 <= e < |edges| && edges[e].connection.Some?
      ensures e in groupOf && edges[e].connection.value in groupOf && groupOf[e] < |gc|
      ensures groupOf[edges[e].connection.value] in gc[groupOf[e]]
    {
      assert Links(edges, groupOf, e, groupOf[e], groupOf[edges[e].connection.value]);
    }
  }

  /** A connected edge lies in a coloured group: it is cut as Knob or Socket,
      given a group, and its partner is given the same group. */
  lemma CutAt(edges: seq<Edge>, groupOf: map<nat, nat>, gc: seq<set<nat>>,
              ggMap: map<nat, nat>, groupGroups: seq<set<nat>>, ggShape: seq<Shape>, e: nat)
    requires ConnectionsSymmetric(edges) && SeamsLinked(edges, groupOf, gc)
    requires forall g: nat :: g in ggMap <==> g < |gc| && HasLinks(gc, g)
    requires Numbered(|gc|, ggMap, groupGroups, ggShape) && SameComponent(gc, ggMap)
    requires e < |edges| && edges[e].connection.Some?
    ensures ShapedIds(ggMap, ggShape) && edges[e].connection.value < |edges| && e in groupOf && groupOf[e] in ggMap
    ensures Target(edges, groupOf, ggMap, ggShape, e).group.Some? && Target(edges, groupOf, ggMap, ggShape, e).shape != Flat
    ensures Target(edges, groupOf, ggMap, ggShape, edges[e].connection.value).group == Target(edges, groupOf, ggMap, ggShape, e).group
  {
    var f := edges[e].connection.value;
    var g, c := groupOf[e], groupOf[f];
    assert c in gc[g];
    var k := ggMap[g];
    assert ggShape[k] == if k % 2 == 0 then Knob else Socket;
    assert c in ggMap && ggMap[c] / 2 == k / 2;
  }

  /** The fourth step's arena is cut as collapse_edges promises, given what
      the first three steps deliver. */
  lemma AssignedCollapsed(edges: seq<Edge>, groupOf: map<nat, nat>, groups: seq<set<nat>>, gc: seq<set<nat>>,
                          ggMap: map<nat, nat>, groupGroups: seq<set<nat>>, ggShape: seq<Shape>)
    requires MergesWellFormed(edges) && ConnectionsSymmetric(edges)
    requires GroupsPartition(edges, groupOf, groups) && SeamsLinked(edges, groupOf, gc)
    requires forall e: nat, m {:trigger m in edges[e].merges} :: e in groupOf && e < |edges| && m in edges[e].merges ==> m in groupOf && groupOf[m] == groupOf[e]
    requires forall g: nat :: g in ggMap <==> g < |gc| && HasLinks(gc, g)
    requires Numbered(|gc|, ggMap, groupGroups, ggShape) && SameComponent(gc, ggMap)
    ensures ShapedIds(ggMap, ggShape) && Collapsed(edges, Assigned(edges, groupOf, ggMap, ggShape))
  {
    AssignedCut(edges, groupOf, gc, ggMap, groupGroups, ggShape);
    GroupsColoured(edges, groupOf, groups, gc, ggMap, groupGroups, ggShape);
    AssignedMerged(edges, groupOf, groups, ggMap, ggShape);
    AssignedKeeps(edges, groupOf, ggMap, ggShape);
  }

  lemma AssignedKeeps(edges: seq<Edge>, groupOf: map<nat, nat>, ggMap: map<nat, nat>, ggShape: seq<Shape>)
    requires ShapedIds(ggMap, ggShape)
    requires forall e :: e in groupOf ==> e < |edges| && edges[e].connection.Some?
    ensures |Assigned(edges, groupOf, ggMap, ggShape)| == |edges|
    ensures forall e :: 0 <= e < |edges| ==>
      && Assigned(edges, groupOf, ggMap, ggShape)[e].connection == edges[e].connection
      && Assigned(edges, groupOf, ggMap, ggShape)[e].merges == edges[e].merges
    ensures forall e :: 0 <= e < |edges| && edges[e].connection.None? ==> Assigned(edges, groupOf, ggMap, ggShape)[e] == edges[e]
  {
    forall e | 0 <= e < |edges| && edges[e].connection.None? ensures Target(edges, groupOf, ggMap, ggShape, e) == edges[e] {
      assert e !in groupOf;
    }
  }

  lemma AssignedCut(edges: seq<Edge>, groupOf: map<nat, nat>, gc: seq<set<nat>>,
                    ggMap: map<nat, nat>, groupGroups: seq<set<nat>>, ggShape: seq<Shape>)
    requires ConnectionsSymmetric(edges) && SeamsLinked(edges, groupOf, gc)
    requires forall g: nat :: g in ggMap <==> g < |gc| && HasLinks(gc, g)
    requires Numbered(|gc|, ggMap, groupGroups, ggShape) && SameComponent(gc, ggMap)
    ensures ShapedIds(ggMap, ggShape)
    ensures forall e :: 0 <= e < |edges| && edges[e].connection.Some? ==>
      && Assigned(edges, groupOf, ggMap, ggShape)[e].group.Some? && Assigned(edges, groupOf, ggMap, ggShape)[e].shape != Flat
      && Assigned(edges, groupOf, ggMap, ggShape)[edges[e].connection.value].group == Assigned(edges, groupOf, ggMap, ggShape)[e].group
  {
    forall e | 0 <= e < |edges| && edges[e].connection.Some?
      ensures Target(edges, groupOf, ggMap, ggShape, e).group.Some? && Target(edges, groupOf, ggMap, ggShape, e).shape != Flat
      ensures Target(edges, groupOf, ggMap, ggShape, edges[e].connection.value).group == Target(edges, groupOf, ggMap, ggShape, e).group
    {
      CutAt(edges, groupOf, gc, ggMap, groupGroups, ggShape, e);
    }
  }

  /** Every group holding an edge has a link, so it is coloured. */
  lemma GroupsColoured(edges: seq<Edge>, groupOf: map<nat, nat>, groups: seq<set<nat>>, gc: seq<set<nat>>,
                       ggMap: map<nat, nat>, groupGroups: seq<set<nat>>, ggShape: seq<Shape>)
    requires ConnectionsSymmetric(edges) && GroupsPartition(edges, groupOf, groups) && SeamsLinked(edges, groupOf, gc)
    requires forall g: nat :: g in ggMap <==> g < |gc| && HasLinks(gc, g)
    requires Numbered(|gc|, ggMap, groupGroups, ggShape) && SameComponent(gc, ggMap)
    ensures ShapedIds(ggMap, ggShape) && forall e :: e in groupOf ==> groupOf[e] in ggMap
  {
    forall e | e in groupOf ensures groupOf[e] in ggMap {
      CutAt(edges, groupOf, gc, ggMap, groupGroups, ggShape, e);
    }
  }

  lemma AssignedMerged(edges: seq<Edge>, groupOf: map<nat, nat>, groups: seq<set<nat>>, ggMap: map<nat, nat>, ggShape: seq<Shape>)
    requires MergesWellFormed(edges) && GroupsPartition(edges, groupOf, groups) && ShapedIds(ggMap, ggShape)
    requires forall e: nat, m {:trigger m in edges[e].merges} :: e in groupOf && e < |edges| && m in edges[e].merges ==> m in groupOf && groupOf[m] == groupOf[e]
    requires forall e :: e in groupOf ==> groupOf[e] in ggMap
    ensures forall e :: 0 <= e < |edges| ==> forall m :: m in edges[e].merges ==>
      && m < |edges|
      && Assigned(edges, groupOf, ggMap, ggShape)[m].group == Assigned(edges, groupOf, ggMap, ggShape)[e].group
      && Assigned(edges, groupOf, ggMap, ggShape)[m].shape == Assigned(edges, groupOf, ggMap, ggShape)[e].shape
  {
    forall e, m | 0 <= e < |edges| && m in edges[e].merges
      ensures m < |edges|
      ensures Target(edges, groupOf, ggMap, ggShape, m).group == Target(edges, groupOf, ggMap, ggShape, e).group
      ensures Target(edges, groupOf, ggMap, ggShape, m).shape == Target(edges, groupOf, ggMap, ggShape, e).shape
    {
      MergedAlike(edges, groupOf, groups, ggMap, ggShape, e, m);
    }
  }

  /** Merged edges are in one group, so they are cut alike. */
  lemma MergedAlike(edges: seq<Edge>, groupOf: map<nat, nat>, groups: seq<set<nat>>, ggMap: map<nat, nat>, ggShape: seq<Shape>,
                    e: nat, m: nat)
    requires MergesWellFormed(edges) && GroupsPartition(edges, groupOf, groups) && ShapedIds(ggMap, ggShape)
    requires forall e: nat, m {:trigger m in edges[e].merges} :: e in groupOf && e < |edges| && m in edges[e].merges ==> m in groupOf && groupOf[m] == groupOf[e]
    requires e < |edges| && m in edges[e].merges && (e in groupOf ==> groupOf[e] in ggMap)
    ensures m < |edges|
    ensures Target(edges, groupOf, ggMap, ggShape, m).group == Target(edges, groupOf, ggMap, ggShape, e).group
    ensures Target(edges, groupOf, ggMap, ggShape, m).shape == Target(edges, groupOf, ggMap, ggShape, e).shape
  {
    assert e in groupOf;
  }

  /** Under a colouring of the group graph the two sides of every seam are
      cut differently, one Knob and one Socket. */
  lemma AssignedOpposite(edges: seq<Edge>, groupOf: map<nat, nat>, gc: seq<set<nat>>,
                         ggMap: map<nat, nat>, ggShape: seq<Shape>, gcol: seq<bool>)
    requires ConnectionsSymmetric(edges) && SeamsLinked(edges, groupOf, gc)
    requires forall g: nat :: g in ggMap <==> g < |gc| && HasLinks(gc, g)
    requires ShapedIds(ggMap, ggShape) && GroupColouring(gc, gcol)
    requires forall gcol :: GroupColouring(gc, gcol) ==>
      forall g :: g in ggMap ==> forall c :: c in gc[g] ==> c in ggMap && ggShape[ggMap[g]] != ggShape[ggMap[c]]
    ensures SeamsOpposite(edges, Assigned(edges, groupOf, ggMap, ggShape))
  {
    forall e | 0 <= e < |edges| && edges[e].connection.Some?
      ensures Target(edges, groupOf, ggMap, ggShape, edges[e].connection.value).shape != Target(edges, groupOf, ggMap, ggShape, e).shape
    {
      var f := edges[e].connection.value;
      var g, c := groupOf[e], groupOf[f];
      assert c in gc[g] && g in ggMap;
    }
  }

  /** What the first two steps deliver to the last two: the groups partition
      the connected edges, merged edges share a group, a group holds one
      colour of any edge colouring, and the group graph holds exactly the
      links made by seams. */
  ghost predicate Linked(edges: seq<Edge>, groupOf: map<nat, nat>, groups: seq<set<nat>>, gc: seq<set<nat>>) {
    && GroupsPartition(edges, groupOf, groups)
    && (forall e: nat, m {:trigger m in edges[e].merges} :: e in groupOf && e < |edges| && m in edges[e].merges ==> m in groupOf && groupOf[m] == groupOf[e])
    && (forall col :: EdgeColouring(edges, col) ==>
          forall e: nat, f: nat :: e in groupOf && f in groupOf && groupOf[e] == groupOf[f] ==> e < |col| && f < |col| && col[e] == col[f])
    && |gc| == |groups|
    && (forall g: nat, c: nat :: g < |gc| ==> (c in gc[g] <==> exists e: nat :: Links(edges, groupOf, e, g, c)))
  }

  /** The arena the fourth step writes is cut as Collapsed says, given what
      the first three steps deliver. */
  lemma CutCollapsed(edges: seq<Edge>, groupOf: map<nat, nat>, groups: seq<set<nat>>, gc: seq<set<nat>>,
                     ggMap: map<nat, nat>, groupGroups: seq<set<nat>>, ggShape: seq<Shape>)
    requires MergesWellFormed(edges) && ConnectionsSymmetric(edges) && Linked(edges, groupOf, groups, gc)
    requires forall g: nat :: g in ggMap <==> g < |gc| && HasLinks(gc, g)
    requires Numbered(|gc|, ggMap, groupGroups, ggShape) && SameComponent(gc, ggMap)
    ensures ShapedIds(ggMap, ggShape) && forall e :: e in groupOf ==> groupOf[e] in ggMap
    ensures Collapsed(edges, Assigned(edges, groupOf, ggMap, ggShape))
  {
    LinkedSeams(edges, groupOf, groups, gc);
    AssignedCollapsed(edges, groupOf, groups, gc, ggMap, groupGroups, ggShape);
    GroupsColoured(edges, groupOf, groups, gc, ggMap, groupGroups, ggShape);
  }

  /** Whenever the edges admit a knob/socket colouring, the arena the fourth
      step writes has opposite shapes across every seam: the colouring induces
      one of the group graph. */
  lemma CutOpposite(edges: seq<Edge>, groupOf: map<nat, nat>, groups: seq<set<nat>>, gc: seq<set<nat>>,
                    ggMap: map<nat, nat>, ggShape: seq<Shape>, col: seq<bool>)
    requires ConnectionsSymmetric(edges) && Linked(edges, groupOf, groups, gc)
    requires forall g: nat :: g in ggMap <==> g < |gc| && HasLinks(gc, g)
    requires ShapedIds(ggMap, ggShape)
    requires forall gcol :: GroupColouring(gc, gcol) ==>
      forall g :: g in ggMap ==> forall c :: c in gc[g] ==> c in ggMap && ggShape[ggMap[g]] != ggShape[ggMap[c]]
    requires EdgeColouring(edges, col)
    ensures SeamsOpposite(edges, Assigned(edges, groupOf, ggMap, ggShape))
  {
    var gcol := InducedColouring(edges, groupOf, groups, gc, col);
    LinkedSeams(edges, groupOf, groups, gc);
    AssignedOpposite(edges, groupOf, gc, ggMap, ggShape, gcol);
  }

  /** collapse_edges' last two steps: colour the group graph and cut every
      edge by its group's half. */
  method CutGroups(edges: seq<Edge>, groupOf: map<nat, nat>, groups: seq<set<nat>>, gc: seq<set<nat>>)
    returns (ok: bool, edges': seq<Edge>)
    requires MergesWellFormed(edges) && ConnectionsSymmetric(edges) && Linked(edges, groupOf, groups, gc)
    requires GroupsJoined(edges, groupOf) && GraphWellFormed(gc) && GraphSymmetric(gc)
    ensures ok && Collapsed(edges, edges') && GroupedByJoins(edges, edges')
    ensures forall col :: EdgeColouring(edges, col) ==> SeamsOpposite(edges, edges')
  {
    var ggMap, groupGroups, ggShape;
    ghost var roots, depthOf, parentOf;
    ok, ggMap, groupGroups, ggShape, roots, depthOf, parentOf := ColourGroups(gc);
    if !ok {
      return false, edges;
    }
    CutCollapsed(edges, groupOf, groups, gc, ggMap, groupGroups, ggShape);
    forall col | EdgeColouring(edges, col) ensures SeamsOpposite(edges, Assigned(edges, groupOf, ggMap, ggShape)) {
      CutOpposite(edges, groupOf, groups, gc, ggMap, ggShape, col);
    }
    AssignedJoined(edges, groupOf, groups, gc, ggMap, ggShape);
    edges' := AssignShapes(edges, groupOf, groups, ggMap, groupGroups, ggShape);
  }

  /** collapse_edges: group the connected edges by merges, link the groups by
      connections, split each component of that graph by depth parity, and
      cut every edge by its group's half. The rejection branch is never
      taken; the arena is cut as Collapsed says, two connected edges share a
      group number exactly when a walk of merges and connections joins them,
      and whenever the edges admit a knob/socket colouring every seam gets one
      Knob and one Socket. */
  method CollapseEdges(edges: seq<Edge>) returns (ok: bool, edges': seq<Edge>)
    requires MergesWellFormed(edges) && ConnectionsSymmetric(edges)
    ensures ok && Collapsed(edges, edges') && GroupedByJoins(edges, edges')
    ensures forall col :: EdgeColouring(edges, col) ==> SeamsOpposite(edges, edges')
  {
    var groupOf, groups := FindGroups(edges);
    var gc := GroupGraph(edges, groupOf, groups);
    GroupGraphSymmetric(edges, groupOf, groups, gc);
    ok, edges' := CutGroups(edges, groupOf, groups, gc);
  }
}
