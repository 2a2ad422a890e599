/** The loop over levels, and the list of communities that `DetectCommunities` persists. */
module Communities {
  import opened Sums
  import opened WeightedGraph
  import opened LocalMoving
  import opened Aggregation
  import opened Hierarchy
  import opened LouvainGraphs
  import opened LouvainPass
  import opened LouvainLevels
  import Lex
  import GraphStore
  import GraphWriter

  /* ---- louvain ---- */

  /** o is among the original nodes that node c stands for. */
  ghost predicate Holds(members: seq<seq<nat>>, c: int, o: int) {
    0 <= c < |members| && 0 <= o && o as nat in members[c]
  }

  /** Node c of the current graph stands for the original nodes that p maps to c. */
  ghost predicate Represents(members: seq<seq<nat>>, p: Labels) {
    && Onto(p, |members|)
    && (forall c, o | Holds(members, c, o) :: o < |p| && p[o] == c)
    && (forall o | 0 <= o < |p| :: Holds(members, p[o], o))
  }

  lemma ComposeAssociative(r: Labels, q: Labels, p: Labels)
    requires Onto(q, |r|) && Onto(p, |q|)
    ensures Compose(Compose(r, q), p) == Compose(r, Compose(q, p))
  {
  }

  /** The original nodes of each collapsed community, gathered from the nodes of the level below. */
  method Regroup(nodeToOrig: array<seq<nat>>, dense: array<nat>, k: nat, ghost p: Labels) returns (regrouped: array<seq<nat>>)
    requires dense.Length == nodeToOrig.Length && Onto(dense[..], k) && Represents(nodeToOrig[..], p)
    ensures fresh(regrouped) && regrouped.Length == k && Represents(regrouped[..], Compose(dense[..], p))
  {
    ghost var orig, d := nodeToOrig[..], dense[..];
    regrouped := new seq<nat>[k](i => []);
    for cn := 0 to dense.Length
      invariant nodeToOrig[..] == orig && dense[..] == d
      invariant forall c, o | Holds(regrouped[..], c, o) :: o < |p| && p[o] < cn && d[p[o]] == c
      invariant forall o | 0 <= o < |p| && p[o] < cn :: Holds(regrouped[..], d[p[o]], o)
    {
      ghost var before := regrouped[..];
      var c := dense[cn];
      regrouped[c] := regrouped[c] + nodeToOrig[cn];
      assert regrouped[..] == before[c := before[c] + orig[cn]];
      forall x, o ensures Holds(regrouped[..], x, o) <==> Holds(before, x, o) || (x == c && Holds(orig, cn, o)) {}
    }
  }

  /** Writes each community's index over its original nodes. */
  method WriteLabels(comm: array<nat>, members: array<seq<nat>>, ghost q: Labels)
    requires Represents(members[..], q) && comm.Length == |q|
    modifies comm
    ensures comm[..] == q
  {
    ghost var m := members[..];
    for c := 0 to members.Length
      invariant members[..] == m
      invariant forall o: nat | o < |q| && q[o] < c :: comm[o] == q[o]
    {
      var list := members[c];
      forall i | 0 <= i < |list| ensures list[i] < |q| && q[list[i]] == c {
        assert Holds(m, c, list[i]);
      }
      for i := 0 to |list|
        invariant members[..] == m
        invariant forall o: nat | o < |q| && q[o] < c :: comm[o] == q[o]
        invariant forall j | 0 <= j < i :: comm[list[j]] == c
      {
        comm[list[i]] := c;
      }
      forall o: nat | o < |q| && q[o] == c ensures comm[o] == c {
        assert Holds(m, c, o);
      }
    }
  }

  /** Where the loop is: the current level's labels, carried over to the original nodes by p, are the result. */
  ghost predicate AtLevel(g: Network, level: Network, members: seq<seq<nat>>, p: Labels) {
    && level.m2 == g.m2 && |members| == level.n && |p| == g.n && Represents(members, p)
    && LouvainLabels(g) == Compose(LouvainLabels(level), p)
  }

  lemma FirstLevel(g: Network, members: seq<seq<nat>>)
    requires |members| == g.n && forall i | 0 <= i < g.n :: members[i] == [i]
    ensures AtLevel(g, g, members, Singletons(g.n))
  {
    hide LouvainLabels;
    forall o | 0 <= o < g.n ensures Holds(members, o, o) {
      assert members[o] == [o];
    }
    assert Compose(LouvainLabels(g), Singletons(g.n)) == LouvainLabels(g);
  }

  lemma LastLevel(g: Network, level: Network, members: seq<seq<nat>>, p: Labels)
    requires AtLevel(g, level, members, p) && PassLabels(level) == Singletons(level.n)
    ensures LouvainLabels(g) == p
  {
    ComposeSingletons(p, level.n);
  }

  lemma NextLevel(g: Network, level: Network, members: seq<seq<nat>>, p: Labels, dense: Labels, k: nat)
    requires AtLevel(g, level, members, p) && PassLabels(level) != Singletons(level.n) && (dense, k) == Dense(PassLabels(level))
    ensures k < level.n && Collapsible(level, dense, k) && Onto(p, |dense|)
    ensures LouvainLabels(g) == Compose(LouvainLabels(Collapse(level, dense, k)), Compose(dense, p))
  {
    hide Collapse, PassLabels, Dense;
    PassShrinks(level);
    ComposeAssociative(LouvainLabels(Collapse(level, dense, k)), dense, p);
  }

  lemma LevelReached(g: Network, level: Network, members: seq<seq<nat>>, p: Labels)
    requires level.m2 == g.m2 && |members| == level.n && |p| == g.n && Represents(members, p)
    requires Onto(p, level.n) && LouvainLabels(g) == Compose(LouvainLabels(level), p)
    ensures AtLevel(g, level, members, p)
  {
  }

  lemma LevelMembers(g: Network, level: Network, members: seq<seq<nat>>, p: Labels)
    requires AtLevel(g, level, members, p)
    ensures level.m2 == g.m2 && |members| == level.n && |p| == g.n && Represents(members, p)
  {
  }

  /** Renumbers the labels of a level densely and carries them over to the original nodes. */
  method Relabel(labels: array<nat>, nodeToOrig: array<seq<nat>>, comm: array<nat>, ghost g: Network, ghost level: Network, ghost p: Labels)
    returns (dense: array<nat>, k: nat, regrouped: array<seq<nat>>, ghost q: Labels)
    requires labels[..] == PassLabels(level) != Singletons(level.n)
    requires AtLevel(g, level, nodeToOrig[..], p) && comm.Length == g.n
    modifies comm
    ensures fresh(dense) && (dense[..], k) == Dense(PassLabels(level)) && k < level.n && Collapsible(level, dense[..], k)
    ensures fresh(regrouped) && comm[..] == q && AtLevel(g, Collapse(level, dense[..], k), regrouped[..], q)
  {
    hide LouvainLabels, PassLabels, Dense, Collapse, AtLevel, Represents;
    dense, k := DenseLabels(labels);
    LevelMembers(g, level, nodeToOrig[..], p);
    NextLevel(g, level, nodeToOrig[..], p, dense[..], k);
    regrouped := Regroup(nodeToOrig, dense, k, p);
    q := Compose(dense[..], p);
    WriteLabels(comm, regrouped, q);
    LevelReached(g, Collapse(level, dense[..], k), regrouped[..], q);
  }

  /** Passes and collapses until a pass moves nothing. */
  method Louvain(input: LouvainGraph) returns (comm: array<nat>)
    requires input.Valid() && WellFormed(input.View()) && input.m2 < TOLERANCE_INVERSE
    ensures fresh(comm) && comm[..] == LouvainLabels(input.View())
  {
    hide LouvainLabels, PassLabels, Dense, Collapse, AtLevel, WellFormed;
    ghost var g: Network := input.View();
    comm := new nat[input.n](i => i);
    var cur := input;
    var nodeToOrig := new seq<nat>[input.n](i => [i]);
    ghost var p: Labels := Singletons(input.n);
    assert comm[..] == p;
    FirstLevel(g, nodeToOrig[..]);
    while true
      invariant cur.Valid() && WellFormed(cur.View()) && cur.m2 == g.m2
      invariant comm[..] == p && comm.Length == g.n && comm != cur.selfLoop && comm != cur.degree
      invariant AtLevel(g, cur.View(), nodeToOrig[..], p)
      decreases cur.n
    {
      ghost var level: Network := cur.View();
      var labels, improved := LouvainOnePass(cur);
      if !improved {
        LastLevel(g, level, nodeToOrig[..], p);
        break;
      }
      var dense, k, newNodeToOrig;
      dense, k, newNodeToOrig, p := Relabel(labels, nodeToOrig, comm, g, level, p);
      if k == cur.n {
        assert false; // a pass that improved leaves fewer communities than nodes
        break;
      }
      cur := Aggregate(cur, dense, k);
      nodeToOrig := newNodeToOrig;
    }
  }

  /* ---- the graph of a vault ---- */

  ghost predicate Distinct(ids: seq<string>) {
    forall i, j | 0 <= i < j < |ids| :: ids[i] != ids[j]
  }

  ghost function IndexOf(ids: seq<string>, id: string): (i: nat)
    requires id in ids
    ensures i < |ids| && ids[i] == id
  {
    var i: nat :| i < |ids| && ids[i] == id;
    i
  }

  /** One unit of weight per edge row whose ends are both entities. */
  ghost function GraphOf(ids: seq<string>, edges: seq<GraphStore.Edge>): (g: Network)
    ensures g.n == |ids| && g.m2 <= 2 * |edges|
  {
    if edges == [] then
      EdgelessWellFormed(|ids|);
      Edgeless(|ids|)
    else
      var g, e := GraphOf(ids, edges[..|edges| - 1]), edges[|edges| - 1];
      if e.source in ids && e.target in ids then
        WithEdgeWellFormed(g, IndexOf(ids, e.source), IndexOf(ids, e.target), 1);
        WithEdge(g, IndexOf(ids, e.source), IndexOf(ids, e.target), 1)
      else g
  }

  ghost predicate Joins(e: GraphStore.Edge, a: string, b: string) {
    (e.source == a && e.target == b) || (e.source == b && e.target == a)
  }

  predicate JoinsItself(e: GraphStore.Edge, id: string) {
    e.source == id && e.target == id
  }

  /** How many rows join a and b, in either direction; for a single entity, how many join it to itself. */
  ghost function RowsJoining(edges: seq<GraphStore.Edge>, a: string, b: string): nat {
    if edges == [] then 0
    else
      var e := edges[|edges| - 1];
      RowsJoining(edges[..|edges| - 1], a, b) + if (e.source, e.target) in {(a, b), (b, a)} then 1 else 0
  }

  ghost function RowsAmong(edges: seq<GraphStore.Edge>, ids: seq<string>): nat {
    if edges == [] then 0
    else
      var e := edges[|edges| - 1];
      RowsAmong(edges[..|edges| - 1], ids) + if e.source in ids && e.target in ids then 1 else 0
  }

  /** Weights count rows: between two entities, on one, and in all. */
  ghost predicate Counts(g: Graph, ids: seq<string>, edges: seq<GraphStore.Edge>) {
    && g.n == |ids| && g.m2 == 2 * RowsAmong(edges, ids)
    && (forall u, v | 0 <= u < |ids| && 0 <= v < |ids| && u != v ::
          Weight(g, u, v) == RowsJoining(edges, ids[u], ids[v]) && (Linked(g, u, v) <==> Weight(g, u, v) > 0))
    && (forall u | 0 <= u < |ids| :: Loop(g, u) == RowsJoining(edges, ids[u], ids[u]))
  }

  lemma OneMoreRow(g: Network, ids: seq<string>, edges: seq<GraphStore.Edge>)
    requires edges != [] && Distinct(ids) && Counts(g, ids, edges[..|edges| - 1])
    requires var e := edges[|edges| - 1]; e.source in ids && e.target in ids
    ensures var e := edges[|edges| - 1];
      Counts(WithEdge(g, IndexOf(ids, e.source), IndexOf(ids, e.target), 1), ids, edges)
  {
    var e := edges[|edges| - 1];
    var x, y := IndexOf(ids, e.source), IndexOf(ids, e.target);
    var h := WithEdge(g, x, y, 1);
    forall u, v | 0 <= u < |ids| && 0 <= v < |ids|
      ensures if u == v then Loop(h, u) == RowsJoining(edges, ids[u], ids[u])
              else Weight(h, u, v) == RowsJoining(edges, ids[u], ids[v]) && (Linked(h, u, v) <==> Weight(h, u, v) > 0) {
      WithEdgeAdjacency(g, x, y, 1, u, v);
      hide WithEdge, Linked, Weight;
      assert Adjacency(h)(u, v) == if u == v then 2 * Loop(h, u) else Weight(h, u, v);
      assert Adjacency(g)(u, v) == if u == v then 2 * Loop(g, u) else Weight(g, u, v);
    }
  }

  /** The graph has one unit of weight for every row between its entities, however many rows join the same two. */
  lemma {:induction false} GraphCounts(ids: seq<string>, edges: seq<GraphStore.Edge>)
    requires Distinct(ids)
    ensures Counts(GraphOf(ids, edges), ids, edges)
  {
    if edges == [] {
    } else {
      var m := |edges| - 1;
      var e := edges[m];
      GraphCounts(ids, edges[..m]);
      if e.source in ids && e.target in ids { OneMoreRow(GraphOf(ids, edges[..m]), ids, edges); } else { NoMoreRows(ids, edges); }
    }
  }

  lemma {:induction false} SomeRowJoins(edges: seq<GraphStore.Edge>, a: string, b: string)
    ensures RowsJoining(edges, a, b) > 0 <==> exists i :: 0 <= i < |edges| && Joins(edges[i], a, b)
  {
    if edges == [] {
    } else {
      var m := |edges| - 1;
      SomeRowJoins(edges[..m], a, b);
      assert forall i | 0 <= i < m :: edges[..m][i] == edges[i];
    }
  }

  /** Two different entities are linked exactly when some edge row joins them, in either direction. */
  lemma GraphLinks(ids: seq<string>, edges: seq<GraphStore.Edge>, u: nat, v: nat)
    requires Distinct(ids) && u < |ids| && v < |ids| && u != v
    ensures Linked(GraphOf(ids, edges), u, v) <==> exists i :: 0 <= i < |edges| && Joins(edges[i], ids[u], ids[v])
  {
    hide GraphOf, Linked, Joins;
    GraphCounts(ids, edges);
    SomeRowJoins(edges, ids[u], ids[v]);
  }

  /** An entity has a self-loop at the first level exactly when some edge row joins it to itself. */
  lemma GraphLoops(ids: seq<string>, edges: seq<GraphStore.Edge>, u: nat)
    requires Distinct(ids) && u < |ids|
    ensures Loop(GraphOf(ids, edges), u) > 0 <==> exists i :: 0 <= i < |edges| && JoinsItself(edges[i], ids[u])
  {
    hide GraphOf, Loop;
    GraphCounts(ids, edges);
    SomeRowJoins(edges, ids[u], ids[u]);
    assert forall e: GraphStore.Edge :: Joins(e, ids[u], ids[u]) <==> JoinsItself(e, ids[u]);
  }

  lemma NoMoreRows(ids: seq<string>, edges: seq<GraphStore.Edge>)
    requires edges != [] && !(edges[|edges| - 1].source in ids && edges[|edges| - 1].target in ids)
    ensures forall u, v | 0 <= u < |ids| && 0 <= v < |ids| ::
      RowsJoining(edges, ids[u], ids[v]) == RowsJoining(edges[..|edges| - 1], ids[u], ids[v])
    ensures RowsAmong(edges, ids) == RowsAmong(edges[..|edges| - 1], ids)
  {
  }

  /** These counts determine the graph. */
  lemma CountsDetermine(g: Network, h: Network, ids: seq<string>, edges: seq<GraphStore.Edge>)
    requires Counts(g, ids, edges) && Counts(h, ids, edges)
    ensures g == h
  {
    var n := |ids|;
    forall u: nat | u < n ensures g.adj[u] == h.adj[u] {
      forall v: nat ensures v in g.adj[u] <==> v in h.adj[u] {
        assert v in g.adj[u] <==> Linked(g, u, v);
        assert v in h.adj[u] <==> Linked(h, u, v);
      }
      forall v | v in g.adj[u] ensures g.adj[u][v] == h.adj[u][v] {
        assert Linked(g, u, v) && Linked(h, u, v);
        assert Weight(g, u, v) == g.adj[u][v] && Weight(h, u, v) == h.adj[u][v];
      }
    }
    forall u: nat | u < n ensures g.loops[u] == h.loops[u] && g.degree[u] == h.degree[u] {
      assert Loop(g, u) == g.loops[u] && Loop(h, u) == h.loops[u];
      SumExt(n, Row(Adjacency(g), u), Row(Adjacency(h), u));
    }
    assert g.adj == h.adj && g.loops == h.loops && g.degree == h.degree;
  }

  /** After the first pass no move of an entity that no edge joins to itself would raise modularity. */
  lemma FirstPassIsOptimal(ids: seq<string>, edges: seq<GraphStore.Edge>, u: nat, c: nat)
    requires Distinct(ids) && u < |ids| && c < |ids| && forall i | 0 <= i < |edges| :: !JoinsItself(edges[i], ids[u])
    ensures var g := GraphOf(ids, edges); Modularity(g, PassLabels(g)[u := c]) <= Modularity(g, PassLabels(g))
  {
    hide GraphOf, PassLabels, Modularity;
    var g := GraphOf(ids, edges);
    GraphLoops(ids, edges, u);
    if c == PassLabels(g)[u] { assert PassLabels(g)[u := c] == PassLabels(g); } else { PassIsLocallyOptimal(g, u, c); }
  }

  method BuildGraph(ids: seq<string>, edges: seq<GraphStore.Edge>) returns (lg: LouvainGraph)
    requires Distinct(ids)
    ensures fresh(lg) && fresh(lg.adj) && fresh(lg.selfLoop) && fresh(lg.degree)
    ensures lg.Valid() && lg.View() == GraphOf(ids, edges) && Counts(lg.View(), ids, edges)
  {
    GraphCounts(ids, edges);
    var idx: map<string, nat> := map[];
    for i := 0 to |ids|
      invariant forall id :: id in idx <==> id in ids[..i]
      invariant forall j | 0 <= j < i :: ids[j] in idx && idx[ids[j]] == j
    {
      idx := idx[ids[i] := i];
    }
    assert ids[..|ids|] == ids;
    lg := new LouvainGraph(|ids|);
    for i := 0 to |edges|
      invariant lg.Valid() && lg.View() == GraphOf(ids, edges[..i])
    {
      hide WithEdge;
      assert edges[..i + 1][..i] == edges[..i];
      var e := edges[i];
      hide Counts;
      if e.source in idx && e.target in idx {
        assert idx[e.source] == IndexOf(ids, e.source) && idx[e.target] == IndexOf(ids, e.target);
        lg.AddEdge(idx[e.source], idx[e.target], 1);
      }
    }
    assert edges[..|edges|] == edges;
  }

  /* ---- the community list ---- */

  datatype Community = Community(number: nat, members: seq<string>, size: nat)

  /** The ids whose node has label c, in entity order. */
  ghost function MembersOf(ids: seq<string>, p: Labels, c: nat): seq<string>
    requires |p| == |ids|
  {
    if ids == [] then []
    else
      var m := |ids| - 1;
      MembersOf(ids[..m], p[..m], c) + if p[m] == c then [ids[m]] else []
  }

  ghost function CommunityList(ids: seq<string>, p: Labels): (r: seq<Community>)
    requires |p| == |ids|
    ensures |r| == Dense(p).1
    ensures forall c | 0 <= c < |r| :: r[c].number == c && r[c].members == MembersOf(ids, Dense(p).0, c) && r[c].size == |r[c].members|
  {
    var (dense, k) := Dense(p);
    seq(k, c requires 0 <= c < k => Community(c, MembersOf(ids, dense, c), |MembersOf(ids, dense, c)|))
  }

  /** Some entity with this id has label c. */
  ghost predicate Labelled(ids: seq<string>, p: Labels, c: nat, id: string) {
    exists i :: 0 <= i < |ids| && i < |p| && ids[i] == id && p[i] == c
  }

  lemma LabelledNext(ids: seq<string>, p: Labels, c: nat, id: string)
    requires |p| == |ids| > 0
    ensures var m := |ids| - 1;
      Labelled(ids, p, c, id) <==> Labelled(ids[..m], p[..m], c, id) || (ids[m] == id && p[m] == c)
  {
    var m := |ids| - 1;
    if Labelled(ids[..m], p[..m], c, id) {
      var i :| 0 <= i < m && ids[..m][i] == id && p[..m][i] == c;
      assert ids[i] == id && p[i] == c;
    }
    if Labelled(ids, p, c, id) {
      var i :| 0 <= i < |ids| && ids[i] == id && p[i] == c;
      assert i < m ==> ids[..m][i] == id && p[..m][i] == c;
    }
  }

  lemma {:induction false} MembersAre(ids: seq<string>, p: Labels, c: nat)
    requires |p| == |ids|
    ensures forall id :: id in MembersOf(ids, p, c) <==> Labelled(ids, p, c, id)
  {
    hide Labelled;
    if ids == [] {
      forall id ensures !Labelled(ids, p, c, id) { NoneLabelled(p, c, id); }
    } else {
      var m := |ids| - 1;
      MembersAre(ids[..m], p[..m], c);
      forall id ensures id in MembersOf(ids, p, c) <==> Labelled(ids, p, c, id) {
        LabelledNext(ids, p, c, id);
      }
    }
  }

  lemma NoneLabelled(p: Labels, c: nat, id: string)
    ensures !Labelled([], p, c, id)
  {
  }

  lemma {:induction false} MemberCount(ids: seq<string>, p: Labels, c: nat)
    requires |p| == |ids|
    ensures |MembersOf(ids, p, c)| == Sum(|ids|, Fibre(LabelAt(p), Ones(), c))
  {
    if ids == [] {
    } else {
      var m := |ids| - 1;
      MemberCount(ids[..m], p[..m], c);
      SumExt(m, Fibre(LabelAt(p[..m]), Ones(), c), Fibre(LabelAt(p), Ones(), c));
    }
  }

  ghost function Ones(): int -> int {
    x => 1
  }

  ghost function Sizes(cs: seq<Community>): int -> int {
    c => if 0 <= c < |cs| then cs[c].size else 0
  }

  /** The members of a community are in the order of the entities, each once. */
  lemma {:induction false} MembersInOrder(ids: seq<string>, p: Labels, c: nat, x: nat, y: nat, i: nat, j: nat)
    requires |p| == |ids| && Distinct(ids) && i < |ids| && j < |ids|
    requires x < y < |MembersOf(ids, p, c)| && MembersOf(ids, p, c)[x] == ids[i] && MembersOf(ids, p, c)[y] == ids[j]
    ensures i < j
  {
    var m := |ids| - 1;
    var front := MembersOf(ids[..m], p[..m], c);
    MembersAre(ids[..m], p[..m], c);
    if y < |front| {
      assert front[x] in front && front[y] in front;
      assert i != m && j != m;
      MembersInOrder(ids[..m], p[..m], c, x, y, i, j);
    } else {
      assert front[x] in front;
    }
  }

  lemma MemberIffLabel(ids: seq<string>, p: Labels, c: nat, i: nat)
    requires |p| == |ids| && Distinct(ids) && i < |ids|
    ensures ids[i] in MembersOf(ids, p, c) <==> p[i] == c
  {
    MembersAre(ids, p, c);
    if Labelled(ids, p, c, ids[i]) {
      var j :| 0 <= j < |ids| && ids[j] == ids[i] && p[j] == c;
      assert j == i;
    }
  }

  lemma SizesAddUp(ids: seq<string>, dense: Labels, cs: seq<Community>)
    requires |dense| == |ids| && Onto(dense, |cs|)
    requires forall c | 0 <= c < |cs| :: cs[c].size == |MembersOf(ids, dense, c)|
    ensures Sum(|cs|, Sizes(cs)) == |ids|
  {
    hide MembersOf;
    forall c: nat | c < |cs| ensures Sizes(cs)(c) == FibreSums(|ids|, LabelAt(dense), Ones())(c) {
      MemberCount(ids, dense, c);
    }
    SumExt(|cs|, Sizes(cs), FibreSums(|ids|, LabelAt(dense), Ones()));
    SumByFibre(|ids|, |cs|, LabelAt(dense), Ones());
    CountOnes(|ids|);
  }

  /**
   * The communities partition the entities: none is empty, entities are in the same one exactly when their labels agree,
   * every entity is in one, and the sizes add up.
   */
  lemma CommunitiesPartition(ids: seq<string>, p: Labels)
    requires |p| == |ids| && Distinct(ids)
    ensures var cs := CommunityList(ids, p);
      && (forall c | 0 <= c < |cs| :: cs[c].members != [])
      && (forall i | 0 <= i < |ids| :: exists c :: 0 <= c < |cs| && ids[i] in cs[c].members)
      && (forall c, i, j | 0 <= c < |cs| && 0 <= i < |ids| && 0 <= j < |ids| && ids[i] in cs[c].members ::
            ids[j] in cs[c].members <==> p[i] == p[j])
      && Sum(|cs|, Sizes(cs)) == |ids|
  {
    hide MembersOf, Dense, Distinct;
    var cs := CommunityList(ids, p);
    var (dense, k) := Dense(p);
    DenseIsRenumbering(p);
    forall c: nat, i: nat | c < k && i < |ids| ensures ids[i] in cs[c].members <==> dense[i] == c {
      MemberIffLabel(ids, dense, c, i);
    }
    forall c: nat | c < k ensures cs[c].members != [] {
      assert UsedBefore(dense, |dense|, c);
      var i :| 0 <= i < |dense| && dense[i] == c;
      assert ids[i] in cs[c].members;
    }
    forall i | 0 <= i < |ids| ensures exists c :: 0 <= c < |cs| && ids[i] in cs[c].members {
      assert ids[i] in cs[dense[i]].members;
    }
    SizesAddUp(ids, dense, cs);
  }

  lemma {:induction false} CountOnes(n: nat)
    ensures Sum(n, Ones()) == n
  {
    if n == 0 {
    } else {
      CountOnes(n - 1);
    }
  }

  /* ---- sort.Slice by size, then by first member ---- */

  predicate Ahead(a: Community, b: Community)
    requires a.members != [] && b.members != []
  {
    a.size > b.size || (a.size == b.size && Lex.Less(a.members[0], b.members[0]))
  }

  predicate Populated(cs: seq<Community>) {
    forall i | 0 <= i < |cs| :: cs[i].members != []
  }

  function InsertBySize(c: Community, cs: seq<Community>): (r: seq<Community>)
    requires c.members != [] && Populated(cs)
    ensures multiset(r) == multiset(cs) + multiset{c} && Populated(r)
  {
    if cs == [] then [c]
    else if Ahead(cs[0], c) then
      assert cs == [cs[0]] + cs[1..];
      [cs[0]] + InsertBySize(c, cs[1..])
    else [c] + cs
  }

  function BySize(cs: seq<Community>): (r: seq<Community>)
    requires Populated(cs)
    ensures multiset(r) == multiset(cs) && Populated(r)
  {
    if cs == [] then []
    else
      assert cs == [cs[0]] + cs[1..];
      InsertBySize(cs[0], BySize(cs[1..]))
  }

  /** From the largest to the smallest, those of one size by the id of the first member. */
  ghost predicate Ordered(cs: seq<Community>)
    requires Populated(cs)
  {
    forall i, j | 0 <= i < j < |cs| :: InOrder(cs[i], cs[j])
  }

  ghost predicate InOrder(a: Community, b: Community)
    requires a.members != [] && b.members != []
  {
    a.size >= b.size && (a.size == b.size ==> !Lex.Less(b.members[0], a.members[0]))
  }

  lemma InOrderIff()
    ensures forall a: Community, b: Community | a.members != [] && b.members != [] :: InOrder(a, b) <==> !Ahead(b, a)
  {
  }

  lemma NotAheadTransitive(a: Community, b: Community, c: Community)
    requires a.members != [] && b.members != [] && c.members != [] && !Ahead(b, a) && !Ahead(c, b)
    ensures !Ahead(c, a)
  {
    if a.size == b.size == c.size { GraphStore.NotLessTransitive(c.members[0], b.members[0], a.members[0]); }
  }

  lemma AheadAsymmetric(a: Community, b: Community)
    requires a.members != [] && b.members != [] && Ahead(a, b)
    ensures !Ahead(b, a)
  {
    if a.size == b.size { Lex.LessAsymmetric(a.members[0], b.members[0]); }
  }

  lemma {:induction false} InsertKeepsOrder(c: Community, cs: seq<Community>)
    requires c.members != [] && Populated(cs) && Ordered(cs)
    ensures Ordered(InsertBySize(c, cs))
  {
    InOrderIff();
    hide Ahead, InOrder;
    var r := InsertBySize(c, cs);
    if cs != [] && Ahead(cs[0], c) {
      InsertKeepsOrder(c, cs[1..]);
      AheadAsymmetric(cs[0], c);
      forall j | 0 < j < |r| ensures !Ahead(r[j], cs[0]) {
        assert r[j] in multiset(r[1..]);
        assert r[j] != c ==> r[j] in cs[1..];
      }
    } else if cs != [] {
      forall j | 0 < j < |r| ensures !Ahead(r[j], c) {
        if j > 1 { NotAheadTransitive(c, cs[0], cs[j - 1]); }
      }
    }
  }

  /** Largest first, equal sizes by the first member's id. */
  lemma {:induction false} BySizeOrders(cs: seq<Community>)
    requires Populated(cs)
    ensures Ordered(BySize(cs))
  {
    InOrderIff();
    hide Ahead, InOrder;
    if cs == [] {
    } else {
      BySizeOrders(cs[1..]);
      InsertKeepsOrder(cs[0], BySize(cs[1..]));
    }
  }

  ghost predicate DistinctFirsts(cs: seq<Community>)
    requires Populated(cs)
  {
    forall i, j | 0 <= i < j < |cs| :: cs[i].members[0] != cs[j].members[0]
  }

  lemma SameFirst(a: seq<Community>, b: seq<Community>)
    requires Populated(a) && Populated(b) && Ordered(a) && Ordered(b) && DistinctFirsts(a)
    requires multiset(a) == multiset(b) && a != [] && b != []
    ensures a[0] == b[0]
  {
    InOrderIff();
    hide Ahead, InOrder;
    assert a[0] in multiset(b) && b[0] in multiset(a);
    var i :| 0 <= i < |b| && b[i] == a[0];
    var j :| 0 <= j < |a| && a[j] == b[0];
    if i > 0 && j > 0 { EquallyAhead(a[0], a[j]); }
  }

  lemma EquallyAhead(x: Community, y: Community)
    requires x.members != [] && y.members != [] && !Ahead(x, y) && !Ahead(y, x)
    ensures x.members[0] == y.members[0]
  {
    Lex.LessTotal(x.members[0], y.members[0]);
  }

  lemma TailsSame(a: seq<Community>, b: seq<Community>)
    requires a != [] && b != [] && a[0] == b[0] && multiset(a) == multiset(b)
    ensures multiset(a[1..]) == multiset(b[1..])
  {
    assert a == [a[0]] + a[1..] && b == [b[0]] + b[1..];
    assert multiset(a) - multiset{a[0]} == multiset(a[1..]);
    assert multiset(b) - multiset{b[0]} == multiset(b[1..]);
  }

  lemma TailOrdered(cs: seq<Community>)
    requires Populated(cs) && Ordered(cs) && cs != []
    ensures Populated(cs[1..]) && Ordered(cs[1..])
    ensures DistinctFirsts(cs) ==> DistinctFirsts(cs[1..])
  {
    hide Ahead;
    assert forall i | 0 <= i < |cs| - 1 :: cs[1..][i] == cs[i + 1];
  }

  /** With different first members there is only one order, whatever order they were sorted from. */
  lemma {:induction false} OrderIsUnique(a: seq<Community>, b: seq<Community>)
    requires Populated(a) && Populated(b) && Ordered(a) && Ordered(b) && DistinctFirsts(a)
    requires multiset(a) == multiset(b)
    ensures a == b
  {
    hide Ahead, Ordered, DistinctFirsts;
    if a == [] || b == [] {
      assert |multiset(a)| == |multiset(b)|;
    } else {
      SameFirst(a, b);
      TailsSame(a, b);
      TailOrdered(a);
      TailOrdered(b);
      OrderIsUnique(a[1..], b[1..]);
      assert a == [a[0]] + a[1..] && b == [b[0]] + b[1..];
    }
  }

  /** No two communities begin with the same entity. */
  lemma FirstsAreDistinct(ids: seq<string>, p: Labels)
    requires |p| == |ids| && Distinct(ids)
    ensures Populated(CommunityList(ids, p)) && DistinctFirsts(CommunityList(ids, p))
  {
    hide MembersOf, Dense, Distinct;
    CommunitiesPartition(ids, p);
    var cs := CommunityList(ids, p);
    var (dense, k) := Dense(p);
    forall i, j | 0 <= i < j < |cs| ensures cs[i].members[0] != cs[j].members[0] {
      MembersAre(ids, dense, i);
      assert cs[i].members[0] in cs[i].members;
      var x :| 0 <= x < |ids| && x < |dense| && ids[x] == cs[i].members[0] && dense[x] == i;
      MemberIffLabel(ids, dense, j, x);
      assert cs[j].members[0] in cs[j].members;
    }
  }

  /** Detection is reproducible: however the communities are sorted by that order, the list is the same. */
  lemma DetectionIsReproducible(ids: seq<string>, p: Labels, cs: seq<Community>)
    requires |p| == |ids| && Distinct(ids)
    requires Populated(cs) && Ordered(cs) && multiset(cs) == multiset(CommunityList(ids, p))
    ensures Populated(CommunityList(ids, p)) && cs == BySize(CommunityList(ids, p))
  {
    hide CommunityList, Ordered;
    var list := CommunityList(ids, p);
    FirstsAreDistinct(ids, p);
    BySizeOrders(list);
    FirstsOfSame(list, cs);
    OrderIsUnique(cs, BySize(list));
  }

  lemma FirstsOfSame(a: seq<Community>, b: seq<Community>)
    requires Populated(a) && Populated(b) && multiset(a) == multiset(b) && DistinctFirsts(a)
    ensures DistinctFirsts(b)
  {
    forall i, j | 0 <= i < j < |b| ensures b[i].members[0] != b[j].members[0] {
      assert b == b[..i] + [b[i]] + b[i + 1..];
      assert b[j] in b[i + 1..];
      if b[i].members[0] == b[j].members[0] {
        assert b[i] in multiset(a) && b[j] in multiset(a);
        var x :| 0 <= x < |a| && a[x] == b[i];
        var y :| 0 <= y < |a| && a[y] == b[j];
        assert x == y;
        assert multiset(b)[b[i]] >= 2;
        NoDoubles(a, x);
      }
    }
  }

  lemma NoDoubles(a: seq<Community>, x: nat)
    requires Populated(a) && DistinctFirsts(a) && x < |a|
    ensures multiset(a)[a[x]] == 1
  {
    assert a == a[..x] + [a[x]] + a[x + 1..];
    assert a[x] !in a[..x] && a[x] !in a[x + 1..];
  }

  /** The edges that detection sees: the store turns the requested limit into its own. */
  ghost function SeenEdges(rows: seq<GraphStore.Edge>, vault: string): (es: seq<GraphStore.Edge>)
    ensures |es| <= 100
  {
    GraphStore.Answer(rows, GraphStore.EdgeQuery(vault, "", "", "", 100000))
  }

  method GatherMembers(ids: seq<string>, dense: array<nat>, k: nat) returns (members: array<seq<string>>)
    requires dense.Length == |ids| && Onto(dense[..], k)
    ensures fresh(members) && members.Length == k
    ensures forall c | 0 <= c < k :: members[c] == MembersOf(ids, dense[..], c)
  {
    ghost var d := dense[..];
    members := new seq<string>[k](i => []);
    for i := 0 to |ids|
      invariant dense[..] == d
      invariant forall c | 0 <= c < k :: members[c] == MembersOf(ids[..i], d[..i], c)
    {
      assert ids[..i + 1][..i] == ids[..i] && d[..i + 1][..i] == d[..i];
      var c := dense[i];
      members[c] := members[c] + [ids[i]];
    }
    assert ids[..|ids|] == ids && d[..|ids|] == d;
  }

  method ListCommunities(ids: seq<string>, labels: array<nat>) returns (comms: seq<Community>)
    requires labels.Length == |ids|
    ensures comms == CommunityList(ids, labels[..])
  {
    hide Dense;
    ghost var p := labels[..];
    var dense, k := DenseLabels(labels);
    DenseIsRenumbering(p);
    var members := GatherMembers(ids, dense, k);
    comms := [];
    for c := 0 to k
      invariant forall x | 0 <= x < k :: members[x] == MembersOf(ids, Dense(p).0, x)
      invariant comms == CommunityList(ids, p)[..c]
    {
      comms := comms + [Community(c, members[c], |members[c]|)];
    }
  }

  /** The communities of a vault, largest first. */
  method DetectCommunities(store: GraphWriter.Store, vault: string, ids: seq<string>) returns (comms: seq<Community>)
    requires Distinct(ids)
    ensures Populated(comms) && Ordered(comms)
    ensures var list := CommunityList(ids, LouvainLabels(GraphOf(ids, SeenEdges(store.edges, vault))));
      Populated(list) && comms == BySize(list) && multiset(comms) == multiset(list)
    ensures var edges := SeenEdges(store.edges, vault);
      && GraphStore.Answers(edges, store.edges, GraphStore.EdgeQuery(vault, "", "", "", 100000))
      && Counts(GraphOf(ids, edges), ids, edges)
  {
    hide LouvainLabels, GraphOf, CommunityList, Ordered, Distinct, Counts, GraphStore.Answers;
    var edges := store.Edges(GraphStore.EdgeQuery(vault, "", "", "", 100000));
    assert edges == SeenEdges(store.edges, vault);
    var lg := BuildGraph(ids, edges);
    var labels := Louvain(lg);
    comms := ListCommunities(ids, labels);
    CommunitiesPartition(ids, labels[..]);
    BySizeOrders(comms);
    comms := BySize(comms);
  }

  /* ---- what detection guarantees, in terms of entities and edges ---- */

  /** Entities in one community are connected through edges. */
  lemma CommunityIsConnected(ids: seq<string>, edges: seq<GraphStore.Edge>, c: nat, i: nat, j: nat)
    requires Distinct(ids) && i < |ids| && j < |ids|
    requires var cs := CommunityList(ids, LouvainLabels(GraphOf(ids, edges)));
      c < |cs| && ids[i] in cs[c].members && ids[j] in cs[c].members
    ensures Connected(GraphOf(ids, edges), i, j)
  {
    hide LouvainLabels, CommunityList;
    CommunitiesPartition(ids, LouvainLabels(GraphOf(ids, edges)));
    CommunitiesAreConnected(GraphOf(ids, edges), i, j);
  }

  /** An entity that no edge joins to another forms a community of its own. */
  lemma IsolatedEntityIsSingleton(ids: seq<string>, edges: seq<GraphStore.Edge>, c: nat, i: nat, j: nat)
    requires Distinct(ids) && i < |ids| && j < |ids| && i != j
    requires forall v, x | 0 <= v < |ids| && v != i && 0 <= x < |edges| :: !Joins(edges[x], ids[i], ids[v])
    requires var cs := CommunityList(ids, LouvainLabels(GraphOf(ids, edges))); c < |cs| && ids[i] in cs[c].members
    ensures ids[j] !in CommunityList(ids, LouvainLabels(GraphOf(ids, edges)))[c].members
  {
    hide LouvainLabels, CommunityList;
    var g := GraphOf(ids, edges);
    forall v: nat ensures v !in g.adj[i] {
      if v in g.adj[i] {
        assert Linked(g, i, v);
        GraphLinks(ids, edges, i, v);
      }
    }
    assert g.adj[i] == map[];
    IsolatedNodeStaysAlone(g, i, j);
    CommunitiesPartition(ids, LouvainLabels(g));
  }
}
