/** Breadth-first traversal of the link index. */
module LinkGraphs {
  import opened Basics

  datatype Link = Link(source: string, target: string, kind: string, vault: string)

  datatype GraphNode = GraphNode(path: string, kind: string)

  datatype GraphEdge = GraphEdge(source: string, target: string, kind: string)

  predicate Visible(r: Link, vault: string) {
    vault == "" || r.vault == vault
  }

  /** The query for one source: its visible rows, in row order. */
  function OutRows(rows: seq<Link>, vault: string, source: string): seq<Link> {
    if rows == [] then []
    else
      var rest, r := OutRows(rows[..|rows| - 1], vault, source), rows[|rows| - 1];
      if r.source == source && Visible(r, vault) then rest + [r] else rest
  }

  function EdgeOf(r: Link): GraphEdge {
    GraphEdge(r.source, r.target, r.kind)
  }

  /* ---- reachability ---- */

  ghost function Targets(rows: seq<Link>, vault: string, s: set<string>): set<string> {
    set r | r in rows && Visible(r, vault) && r.source in s :: r.target
  }

  /** The paths at most k hops from seed. */
  ghost function Within(rows: seq<Link>, vault: string, seed: string, k: nat): set<string> {
    if k == 0 then {seed} else Within(rows, vault, seed, k - 1) + Targets(rows, vault, Within(rows, vault, seed, k - 1))
  }

  ghost predicate Hop(rows: seq<Link>, vault: string, a: string, b: string) {
    exists r :: r in rows && r.source == a && r.target == b && (vault != "" ==> r.vault == vault)
  }

  ghost predicate Walk(rows: seq<Link>, vault: string, w: seq<string>) {
    w != [] && forall i | 0 < i < |w| :: Hop(rows, vault, w[i - 1], w[i])
  }

  /** A walk of at most k links from the seed to x. */
  ghost predicate Leads(rows: seq<Link>, vault: string, seed: string, k: nat, x: string, w: seq<string>) {
    Walk(rows, vault, w) && w[0] == seed && w[|w| - 1] == x && |w| <= k + 1
  }

  /** Within k hops means: at the end of a walk of at most k links from the seed. */
  lemma WithinIsWalk(rows: seq<Link>, vault: string, seed: string, k: nat, x: string)
    ensures x in Within(rows, vault, seed, k) <==> exists w :: Leads(rows, vault, seed, k, x, w)
  {
    hide Within, Walk;
    if x in Within(rows, vault, seed, k) { var w := WithinHasWalk(rows, vault, seed, k, x); }
    forall w | Leads(rows, vault, seed, k, x, w) ensures x in Within(rows, vault, seed, k) {
      WalkIsWithin(rows, vault, seed, w, k);
    }
  }

  lemma {:induction false} WithinHasWalk(rows: seq<Link>, vault: string, seed: string, k: nat, x: string) returns (w: seq<string>)
    requires x in Within(rows, vault, seed, k)
    ensures Leads(rows, vault, seed, k, x, w)
  {
    if k == 0 {
      w := [x];
    } else if x in Within(rows, vault, seed, k - 1) {
      w := WithinHasWalk(rows, vault, seed, k - 1, x);
    } else {
      var r :| r in rows && Visible(r, vault) && r.source in Within(rows, vault, seed, k - 1) && r.target == x;
      w := WithinHasWalk(rows, vault, seed, k - 1, r.source);
      ExtendWalk(rows, vault, w, r);
      w := w + [x];
    }
  }

  lemma ExtendWalk(rows: seq<Link>, vault: string, w: seq<string>, r: Link)
    requires Walk(rows, vault, w) && r in rows && Visible(r, vault) && r.source == w[|w| - 1]
    ensures Walk(rows, vault, w + [r.target])
  {
    assert Hop(rows, vault, r.source, r.target);
  }

  lemma {:induction false} WalkIsWithin(rows: seq<Link>, vault: string, seed: string, w: seq<string>, k: nat)
    requires Walk(rows, vault, w) && w[0] == seed && |w| <= k + 1
    ensures w[|w| - 1] in Within(rows, vault, seed, k)
  {
    if |w| == 1 {
      WithinGrows(rows, vault, seed, 0, k);
    } else {
      var v := w[..|w| - 1];
      WalkIsWithin(rows, vault, seed, v, k - 1);
      assert Hop(rows, vault, w[|w| - 2], w[|w| - 1]);
    }
  }

  lemma {:induction false} WithinGrows(rows: seq<Link>, vault: string, seed: string, j: nat, k: nat)
    requires j <= k
    ensures Within(rows, vault, seed, j) <= Within(rows, vault, seed, k)
    decreases k - j
  {
    hide Targets;
    if j < k { WithinGrows(rows, vault, seed, j, k - 1); }
  }

  /** Once a layer is empty, no later layer adds anything. */
  lemma {:induction false} WithinSettles(rows: seq<Link>, vault: string, seed: string, j: nat, k: nat)
    requires j <= k && Targets(rows, vault, Within(rows, vault, seed, j)) <= Within(rows, vault, seed, j)
    ensures Within(rows, vault, seed, k) == Within(rows, vault, seed, j)
    decreases k - j
  {
    hide Targets;
    if j < k { WithinSettles(rows, vault, seed, j, k - 1); }
  }

  /* ---- what the traversal returns ---- */

  ghost function Paths(nodes: seq<GraphNode>): (r: seq<string>)
    ensures |r| == |nodes| && forall i | 0 <= i < |nodes| :: r[i] == nodes[i].path
  {
    seq(|nodes|, i requires 0 <= i < |nodes| => nodes[i].path)
  }

  ghost function SetOf(s: seq<string>): set<string> {
    set x | x in s
  }

  /** The edges out of the given sources, source by source. */
  ghost function EdgesFrom(rows: seq<Link>, vault: string, sources: seq<string>): seq<GraphEdge> {
    if sources == [] then []
    else EdgesFrom(rows, vault, sources[..|sources| - 1]) + EdgesOf(OutRows(rows, vault, sources[|sources| - 1]))
  }

  ghost function EdgesOf(rs: seq<Link>): (r: seq<GraphEdge>)
    ensures |r| == |rs| && forall i | 0 <= i < |rs| :: r[i] == EdgeOf(rs[i])
  {
    seq(|rs|, i requires 0 <= i < |rs| => EdgeOf(rs[i]))
  }

  /** The visible rows whose source is in s, in row order. */
  ghost function RowsFrom(rows: seq<Link>, vault: string, s: set<string>): seq<Link> {
    if rows == [] then []
    else
      var rest, r := RowsFrom(rows[..|rows| - 1], vault, s), rows[|rows| - 1];
      if r.source in s && Visible(r, vault) then rest + [r] else rest
  }

  lemma {:induction false} RowsFromOneMore(rows: seq<Link>, vault: string, s: set<string>, x: string)
    requires x !in s
    ensures multiset(EdgesOf(RowsFrom(rows, vault, s + {x})))
      == multiset(EdgesOf(RowsFrom(rows, vault, s))) + multiset(EdgesOf(OutRows(rows, vault, x)))
  {
    if rows == [] {
    } else {
      var m := |rows| - 1;
      RowsFromOneMore(rows[..m], vault, s, x);
      EdgesOfAppend(RowsFrom(rows[..m], vault, s + {x}), rows[m]);
      EdgesOfAppend(RowsFrom(rows[..m], vault, s), rows[m]);
      EdgesOfAppend(OutRows(rows[..m], vault, x), rows[m]);
    }
  }

  lemma EdgesOfAppend(rs: seq<Link>, r: Link)
    ensures EdgesOf(rs + [r]) == EdgesOf(rs) + [EdgeOf(r)]
  {
  }

  /** Following different sources one by one yields every visible row out of them exactly once. */
  lemma {:induction false} EachRowOnce(rows: seq<Link>, vault: string, sources: seq<string>)
    requires NoRepeats(sources)
    ensures multiset(EdgesFrom(rows, vault, sources)) == multiset(EdgesOf(RowsFrom(rows, vault, SetOf(sources))))
  {
    if sources == [] {
      NoRowsFromNone(rows, vault);
      assert SetOf(sources) == {};
    } else {
      var m := |sources| - 1;
      EachRowOnce(rows, vault, sources[..m]);
      assert SetOf(sources) == SetOf(sources[..m]) + {sources[m]} by { assert sources == sources[..m] + [sources[m]]; }
      assert sources[m] !in SetOf(sources[..m]);
      RowsFromOneMore(rows, vault, SetOf(sources[..m]), sources[m]);
    }
  }

  lemma {:induction false} NoRowsFromNone(rows: seq<Link>, vault: string)
    ensures RowsFrom(rows, vault, {}) == []
  {
    if rows == [] {
    } else {
      NoRowsFromNone(rows[..|rows| - 1], vault);
    }
  }

  /** How many rows link a to b with this kind, in the given vault or in any when none is given. */
  ghost function LinkCount(rows: seq<Link>, vault: string, a: string, b: string, kind: string): nat {
    if rows == [] then 0
    else
      var r := rows[|rows| - 1];
      LinkCount(rows[..|rows| - 1], vault, a, b, kind)
        + if (vault == "" || vault == r.vault) && r.source == a && r.target == b && r.kind == kind then 1 else 0
  }

  /** An edge from a to b is there once for each row that links them, for every a among the paths in s and for no other. */
  ghost predicate EdgePerRow(rows: seq<Link>, vault: string, edges: seq<GraphEdge>, s: set<string>) {
    forall a, b, kind :: multiset(edges)[GraphEdge(a, b, kind)] == if a in s then LinkCount(rows, vault, a, b, kind) else 0
  }

  lemma {:induction false} EdgesPerRow(rows: seq<Link>, vault: string, s: set<string>)
    ensures EdgePerRow(rows, vault, EdgesOf(RowsFrom(rows, vault, s)), s)
  {
    if rows == [] {
    } else {
      var m := |rows| - 1;
      EdgesPerRow(rows[..m], vault, s);
      EdgesOfAppend(RowsFrom(rows[..m], vault, s), rows[m]);
    }
  }

  /** The source of an earlier edge is no later among the paths. */
  ghost predicate SourcesInOrder(paths: seq<string>, edges: seq<GraphEdge>) {
    forall i, j, x, y | 0 <= i < j < |edges| && 0 <= x < |paths| && 0 <= y < |paths| ::
      paths[x] == edges[i].source && paths[y] == edges[j].source ==> x <= y
  }

  lemma {:induction false} SourcesFollowOrder(rows: seq<Link>, vault: string, sources: seq<string>)
    requires NoRepeats(sources)
    ensures SourcesInOrder(sources, EdgesFrom(rows, vault, sources))
    ensures forall i | 0 <= i < |EdgesFrom(rows, vault, sources)| :: EdgesFrom(rows, vault, sources)[i].source in sources
  {
    if sources == [] {
    } else {
      hide EdgesOf;
      var m := |sources| - 1;
      SourcesFollowOrder(rows, vault, sources[..m]);
      OutRowsAre(rows, vault, sources[m]);
      var before, more := EdgesFrom(rows, vault, sources[..m]), EdgesOf(OutRows(rows, vault, sources[m]));
      assert forall i | 0 <= i < |more| :: more[i].source == sources[m] by {
        assert forall i | 0 <= i < |more| :: more[i] == EdgeOf(OutRows(rows, vault, sources[m])[i]);
      }
      AppendedInOrder(sources, before, more);
    }
  }

  lemma AppendedInOrder(paths: seq<string>, edges: seq<GraphEdge>, more: seq<GraphEdge>)
    requires paths != [] && NoRepeats(paths) && SourcesInOrder(paths[..|paths| - 1], edges)
    requires forall i | 0 <= i < |edges| :: edges[i].source in paths[..|paths| - 1]
    requires forall i | 0 <= i < |more| :: more[i].source == paths[|paths| - 1]
    ensures SourcesInOrder(paths, edges + more)
    ensures forall i | 0 <= i < |edges + more| :: (edges + more)[i].source in paths
  {
  }

  /** The same along more paths, when the sources are among the first ones. */
  lemma MorePathsInOrder(paths: seq<string>, start: nat, edges: seq<GraphEdge>)
    requires NoRepeats(paths) && start <= |paths| && SourcesInOrder(paths[..start], edges)
    requires forall i | 0 <= i < |edges| :: edges[i].source in paths[..start]
    ensures SourcesInOrder(paths, edges)
  {
  }

  /** Earlier nodes are at no greater distance: whatever number of hops reaches a later one reaches them. */
  ghost predicate NearestFirst(rows: seq<Link>, vault: string, seed: string, paths: seq<string>) {
    forall i, j, k: nat | 0 <= i < j < |paths| && paths[j] in Within(rows, vault, seed, k) :: paths[i] in Within(rows, vault, seed, k)
  }

  /** The j-th edge is the first that leads to path. */
  ghost predicate FirstTo(edges: seq<GraphEdge>, j: int, path: string) {
    0 <= j < |edges| && edges[j].target == path && forall i | 0 <= i < j :: edges[i].target != path
  }

  /** Every node but the first carries the kind of the first edge that leads to it. */
  ghost predicate KindsFromEdges(nodes: seq<GraphNode>, edges: seq<GraphEdge>) {
    forall i | 0 < i < |nodes| :: exists j :: FirstTo(edges, j, nodes[i].path) && edges[j].kind == nodes[i].kind
  }

  ghost predicate TargetsAmong(edges: seq<GraphEdge>, seen: set<string>) {
    forall j | 0 <= j < |edges| :: edges[j].target in seen
  }

  /** One more row keeps the kinds, and gives a target not seen before its own. */
  lemma KindsNext(nodes: seq<GraphNode>, edges: seq<GraphEdge>, seen: set<string>, r: Link)
    requires KindsFromEdges(nodes, edges) && TargetsAmong(edges, seen)
    ensures var more := edges + [EdgeOf(r)];
      && KindsFromEdges(nodes, more) && TargetsAmong(more, seen + {r.target})
      && (r.target !in seen ==> KindsFromEdges(nodes + [GraphNode(r.target, r.kind)], more))
  {
    var more, all := edges + [EdgeOf(r)], nodes + [GraphNode(r.target, r.kind)];
    forall i | 0 < i < |nodes| ensures exists j :: FirstTo(more, j, nodes[i].path) && more[j].kind == nodes[i].kind {
      var j :| FirstTo(edges, j, nodes[i].path) && edges[j].kind == nodes[i].kind;
      assert FirstTo(more, j, nodes[i].path) && more[j] == edges[j];
    }
    if r.target !in seen {
      assert FirstTo(more, |edges|, r.target) && more[|edges|].kind == r.kind;
      forall i | 0 < i < |all| ensures exists j :: FirstTo(more, j, all[i].path) && more[j].kind == all[i].kind {
        assert i < |nodes| ==> all[i] == nodes[i];
      }
    }
  }

  lemma {:induction false} OutRowsAre(rows: seq<Link>, vault: string, source: string)
    ensures forall r :: r in OutRows(rows, vault, source) <==> r in rows && Visible(r, vault) && r.source == source
  {
    if rows == [] {
    } else {
      OutRowsAre(rows[..|rows| - 1], vault, source);
      assert rows == rows[..|rows| - 1] + [rows[|rows| - 1]];
    }
  }

  /** The nodes are the paths seen, each once, and every edge found leads to one of them. */
  ghost predicate Tracked(nodes: seq<GraphNode>, edges: seq<GraphEdge>, seen: set<string>) {
    && nodes != [] && seen == SetOf(Paths(nodes)) && NoRepeats(Paths(nodes))
    && KindsFromEdges(nodes, edges) && TargetsAmong(edges, seen)
  }

  lemma TrackNext(nodes: seq<GraphNode>, edges: seq<GraphEdge>, seen: set<string>, r: Link)
    requires Tracked(nodes, edges, seen)
    ensures if r.target in seen then Tracked(nodes, edges + [EdgeOf(r)], seen)
      else Tracked(nodes + [GraphNode(r.target, r.kind)], edges + [EdgeOf(r)], seen + {r.target})
  {
    hide KindsFromEdges, TargetsAmong;
    KindsNext(nodes, edges, seen, r);
    var more := nodes + [GraphNode(r.target, r.kind)];
    assert Paths(more) == Paths(nodes) + [r.target];
    assert SetOf(Paths(more)) == SetOf(Paths(nodes)) + {r.target};
    assert r.target in seen ==> seen + {r.target} == seen;
  }

  /** Follows the rows of one source: an edge for each, a node for each target not seen before. */
  method Expand(out: seq<Link>, nodes0: seq<GraphNode>, edges0: seq<GraphEdge>, seen0: set<string>, next0: seq<string>)
    returns (nodes: seq<GraphNode>, edges: seq<GraphEdge>, seen: set<string>, next: seq<string>)
    requires Tracked(nodes0, edges0, seen0)
    ensures Tracked(nodes, edges, seen)
    ensures edges == edges0 + EdgesOf(out) && seen == seen0 + set r | r in out :: r.target
    ensures |nodes| >= |nodes0| && nodes[..|nodes0|] == nodes0 && next == next0 + Paths(nodes)[|nodes0|..]
  {
    hide Tracked;
    nodes, edges, seen, next := nodes0, edges0, seen0, next0;
    for i := 0 to |out|
      invariant Tracked(nodes, edges, seen)
      invariant edges == edges0 + EdgesOf(out[..i]) && seen == seen0 + set r | r in out[..i] :: r.target
      invariant |nodes| >= |nodes0| && nodes[..|nodes0|] == nodes0 && next == next0 + Paths(nodes)[|nodes0|..]
    {
      var r := out[i];
      assert out[..i + 1] == out[..i] + [r];
      EdgesOfAppend(out[..i], r);
      TrackNext(nodes, edges, seen, r);
      edges := edges + [EdgeOf(r)];
      if r.target !in seen {
        seen := seen + {r.target};
        next := next + [r.target];
        ghost var before := nodes;
        nodes := nodes + [GraphNode(r.target, r.kind)];
        assert Paths(nodes) == Paths(before) + [r.target];
      }
    }
    assert out[..|out|] == out;
  }

  lemma {:induction false} EdgesFromAppend(rows: seq<Link>, vault: string, a: seq<string>, b: seq<string>)
    ensures EdgesFrom(rows, vault, a + b) == EdgesFrom(rows, vault, a) + EdgesFrom(rows, vault, b)
  {
    hide OutRows, EdgesOf;
    if b == [] {
      assert a + b == a;
    } else {
      var m := |b| - 1;
      EdgesFromAppend(rows, vault, a, b[..m]);
      assert (a + b)[..|a + b| - 1] == a + b[..m] && (a + b)[|a + b| - 1] == b[m];
      var x, y, z := EdgesFrom(rows, vault, a), EdgesFrom(rows, vault, b[..m]), EdgesOf(OutRows(rows, vault, b[m]));
      assert (x + y) + z == x + (y + z);
    }
  }

  /** nodes extends nodes0 by next, without repeats, to the paths in seen; every added node has its kind from an edge. */
  ghost predicate Grown(nodes0: seq<GraphNode>, nodes: seq<GraphNode>, edges: seq<GraphEdge>, seen: set<string>, next: seq<string>) {
    && nodes0 != [] && |nodes| >= |nodes0| && nodes[..|nodes0|] == nodes0 && next == Paths(nodes)[|nodes0|..]
    && Tracked(nodes, edges, seen)
  }

  method GrowBy(out: seq<Link>, ghost nodes0: seq<GraphNode>, nodes1: seq<GraphNode>, edges1: seq<GraphEdge>, seen1: set<string>, next1: seq<string>)
    returns (nodes: seq<GraphNode>, edges: seq<GraphEdge>, seen: set<string>, next: seq<string>)
    requires Grown(nodes0, nodes1, edges1, seen1, next1)
    ensures Grown(nodes0, nodes, edges, seen, next)
    ensures edges == edges1 + EdgesOf(out) && seen == seen1 + set r | r in out :: r.target
  {
    hide NoRepeats, KindsFromEdges, TargetsAmong;
    nodes, edges, seen, next := Expand(out, nodes1, edges1, seen1, next1);
    assert nodes[..|nodes0|] == nodes1[..|nodes0|];
    assert Paths(nodes)[..|nodes1|] == Paths(nodes1);
    assert Paths(nodes)[|nodes0|..] == Paths(nodes1)[|nodes0|..] + Paths(nodes)[|nodes1|..];
  }

  /** The edges and paths gained by following the given sources in turn. */
  ghost predicate Gained(rows: seq<Link>, vault: string, sources: seq<string>, edges0: seq<GraphEdge>, edges: seq<GraphEdge>, seen0: set<string>, seen: set<string>) {
    edges == edges0 + EdgesFrom(rows, vault, sources) && seen == seen0 + Targets(rows, vault, SetOf(sources))
  }

  lemma GainedByNone(rows: seq<Link>, vault: string, edges0: seq<GraphEdge>, seen0: set<string>)
    ensures Gained(rows, vault, [], edges0, edges0, seen0, seen0)
  {
    assert SetOf([]) == {};
  }

  lemma GainedOneMore(rows: seq<Link>, vault: string, current: seq<string>, i: nat, edges0: seq<GraphEdge>, edges: seq<GraphEdge>, seen0: set<string>, seen: set<string>)
    requires i < |current| && Gained(rows, vault, current[..i], edges0, edges, seen0, seen)
    ensures Gained(rows, vault, current[..i + 1], edges0, edges + EdgesOf(OutRows(rows, vault, current[i])),
                   seen0, seen + set r | r in OutRows(rows, vault, current[i]) :: r.target)
  {
    hide EdgesFrom, Targets, SetOf, OutRows, EdgesOf;
    EdgesOneMore(rows, vault, current, i);
    TargetsOneMore(rows, vault, current, i);
  }

  /** One hop: follows every path of the current layer in turn. */
  method ExpandHop(rows: seq<Link>, vault: string, current: seq<string>, nodes0: seq<GraphNode>, edges0: seq<GraphEdge>, seen0: set<string>)
    returns (nodes: seq<GraphNode>, edges: seq<GraphEdge>, seen: set<string>, next: seq<string>)
    requires Grown(nodes0, nodes0, edges0, seen0, [])
    ensures Grown(nodes0, nodes, edges, seen, next)
    ensures Gained(rows, vault, current, edges0, edges, seen0, seen)
  {
    hide Grown, Gained;
    nodes, edges, seen, next := nodes0, edges0, seen0, [];
    GainedByNone(rows, vault, edges0, seen0);
    assert current[..0] == [];
    for i := 0 to |current|
      invariant Grown(nodes0, nodes, edges, seen, next)
      invariant Gained(rows, vault, current[..i], edges0, edges, seen0, seen)
    {
      var out := OutRows(rows, vault, current[i]);
      GainedOneMore(rows, vault, current, i, edges0, edges, seen0, seen);
      nodes, edges, seen, next := GrowBy(out, nodes0, nodes, edges, seen, next);
    }
    assert current[..|current|] == current;
  }

  lemma EdgesOneMore(rows: seq<Link>, vault: string, current: seq<string>, i: nat)
    requires i < |current|
    ensures EdgesFrom(rows, vault, current[..i + 1]) == EdgesFrom(rows, vault, current[..i]) + EdgesOf(OutRows(rows, vault, current[i]))
  {
    assert current[..i + 1][..i] == current[..i] && current[..i + 1][i] == current[i];
  }

  lemma TargetsOneMore(rows: seq<Link>, vault: string, current: seq<string>, i: nat)
    requires i < |current|
    ensures Targets(rows, vault, SetOf(current[..i + 1]))
      == Targets(rows, vault, SetOf(current[..i])) + set r | r in OutRows(rows, vault, current[i]) :: r.target
  {
    OutRowsAre(rows, vault, current[i]);
    assert SetOf(current[..i + 1]) == SetOf(current[..i]) + {current[i]} by { assert current[..i + 1] == current[..i] + [current[i]]; }
  }

  /** The paths whose rows are followed within maxDepth hops. */
  ghost function Followed(rows: seq<Link>, vault: string, seed: string, maxDepth: nat): set<string> {
    if maxDepth == 0 then {} else Within(rows, vault, seed, maxDepth - 1)
  }

  /** The next layer comes after everything nearer. */
  lemma NearestFirstGrows(rows: seq<Link>, vault: string, seed: string, hop: nat, near: seq<string>, far: seq<string>)
    requires NearestFirst(rows, vault, seed, near) && SetOf(near) == Within(rows, vault, seed, hop)
    requires NoRepeats(near + far) && SetOf(near + far) == Within(rows, vault, seed, hop + 1)
    ensures NearestFirst(rows, vault, seed, near + far)
  {
    var all := near + far;
    forall i, j, k: nat | 0 <= i < j < |all| && all[j] in Within(rows, vault, seed, k)
      ensures all[i] in Within(rows, vault, seed, k)
    {
      if j >= |near| {
        forall x | 0 <= x < |near| ensures near[x] != all[j] {
          assert near[x] == all[x];
        }
        assert all[j] !in SetOf(near);
        if k <= hop { WithinGrows(rows, vault, seed, k, hop); } else { WithinGrows(rows, vault, seed, hop + 1, k); }
        assert all[i] in SetOf(all);
      }
    }
  }

  /** After a hop the nodes are those one hop further, since the layers before have already been followed. */
  lemma HopReaches(rows: seq<Link>, vault: string, seed: string, hop: nat, before: set<string>, layer: set<string>)
    requires before + layer == Within(rows, vault, seed, hop) && before == Followed(rows, vault, seed, hop)
    ensures Within(rows, vault, seed, hop) + Targets(rows, vault, layer) == Within(rows, vault, seed, hop + 1)
  {
    var w := Within(rows, vault, seed, hop);
    assert Targets(rows, vault, w) == Targets(rows, vault, before) + Targets(rows, vault, layer);
    assert Targets(rows, vault, before) <= w;
  }

  lemma SeedFollowed(rows: seq<Link>, vault: string, seed: string, hop: nat)
    requires Followed(rows, vault, seed, hop) == Within(rows, vault, seed, hop)
    ensures hop > 0 && Within(rows, vault, seed, hop - 1) == Within(rows, vault, seed, hop)
    ensures Targets(rows, vault, Within(rows, vault, seed, hop - 1)) <= Within(rows, vault, seed, hop - 1)
  {
    WithinGrows(rows, vault, seed, 0, hop);
    assert seed in Within(rows, vault, seed, 0);
  }

  /** When a layer is empty the nodes found and the paths followed are final. */
  lemma EmptyLayerSettles(rows: seq<Link>, vault: string, seed: string, hop: nat, maxDepth: nat)
    requires hop <= maxDepth && Followed(rows, vault, seed, hop) == Within(rows, vault, seed, hop)
    ensures Within(rows, vault, seed, maxDepth) == Within(rows, vault, seed, hop) == Followed(rows, vault, seed, maxDepth)
  {
    hide Within, Targets, Followed;
    SeedFollowed(rows, vault, seed, hop);
    FollowedNext(rows, vault, seed, maxDepth);
    WithinSettles(rows, vault, seed, hop - 1, maxDepth);
    WithinSettles(rows, vault, seed, hop - 1, maxDepth - 1);
  }

  /** Where the traversal is before a hop: the first `start` nodes have been followed, the rest are the current layer. */
  ghost predicate AtHop(rows: seq<Link>, vault: string, seed: string, hop: nat, nodes: seq<GraphNode>, edges: seq<GraphEdge>, start: nat) {
    && start <= |nodes|
    && SetOf(Paths(nodes)) == Within(rows, vault, seed, hop)
    && SetOf(Paths(nodes)[..start]) == Followed(rows, vault, seed, hop)
    && edges == EdgesFrom(rows, vault, Paths(nodes)[..start])
    && NoRepeats(Paths(nodes)) && NearestFirst(rows, vault, seed, Paths(nodes))
    && nodes != [] && nodes[0] == GraphNode(seed, "source")
    && KindsFromEdges(nodes, edges) && TargetsAmong(edges, SetOf(Paths(nodes)))
  }

  lemma HopAdvances(rows: seq<Link>, vault: string, seed: string, hop: nat, nodes0: seq<GraphNode>, edges0: seq<GraphEdge>, start: nat,
                    nodes: seq<GraphNode>, edges: seq<GraphEdge>, seen: set<string>, next: seq<string>)
    requires AtHop(rows, vault, seed, hop, nodes0, edges0, start) && Grown(nodes0, nodes, edges, seen, next)
    requires Gained(rows, vault, Paths(nodes0)[start..], edges0, edges, SetOf(Paths(nodes0)), seen)
    ensures AtHop(rows, vault, seed, hop + 1, nodes, edges, |nodes0|)
  {
    hide NoRepeats, NearestFirst, KindsFromEdges, TargetsAmong, Within, Followed, Targets, EdgesFrom;
    var paths := Paths(nodes0);
    var done, current := paths[..start], paths[start..];
    assert paths == done + current;
    assert SetOf(paths) == SetOf(done) + SetOf(current);
    HopReaches(rows, vault, seed, hop, SetOf(done), SetOf(current));
    EdgesFromAppend(rows, vault, done, current);
    assert Paths(nodes)[..|nodes0|] == paths && Paths(nodes) == paths + next;
    NearestFirstGrows(rows, vault, seed, hop, paths, next);
    FollowedNext(rows, vault, seed, hop + 1);
    assert nodes[0] == nodes[..|nodes0|][0];
  }

  /** The edges are those out of the first nodes, node by node, each node's in row order. */
  ghost predicate InNodeOrder(rows: seq<Link>, vault: string, nodes: seq<GraphNode>, edges: seq<GraphEdge>) {
    exists start | 0 <= start <= |nodes| :: edges == EdgesFrom(rows, vault, Paths(nodes)[..start])
  }

  lemma AtEnd(rows: seq<Link>, vault: string, seed: string, hop: nat, maxDepth: nat, nodes: seq<GraphNode>, edges: seq<GraphEdge>, start: nat)
    requires AtHop(rows, vault, seed, hop, nodes, edges, start) && hop <= maxDepth && (hop < maxDepth ==> start == |nodes|)
    ensures SetOf(Paths(nodes)) == Within(rows, vault, seed, maxDepth)
    ensures multiset(edges) == multiset(EdgesOf(RowsFrom(rows, vault, Followed(rows, vault, seed, maxDepth))))
    ensures EdgePerRow(rows, vault, edges, Followed(rows, vault, seed, maxDepth))
    ensures InNodeOrder(rows, vault, nodes, edges) && SourcesInOrder(Paths(nodes), edges)
  {
    hide NearestFirst, KindsFromEdges, Within, Followed, EdgesFrom, SourcesInOrder;
    if hop < maxDepth {
      assert Paths(nodes)[..start] == Paths(nodes);
      EmptyLayerSettles(rows, vault, seed, hop, maxDepth);
    }
    NoRepeatsPrefix(Paths(nodes), start);
    EachRowOnce(rows, vault, Paths(nodes)[..start]);
    EdgesPerRow(rows, vault, Followed(rows, vault, seed, maxDepth));
    SourcesFollowOrder(rows, vault, Paths(nodes)[..start]);
    MorePathsInOrder(Paths(nodes), start, edges);
  }

  lemma AtStart(rows: seq<Link>, vault: string, seed: string)
    ensures Paths([GraphNode(seed, "source")]) == [seed]
    ensures AtHop(rows, vault, seed, 0, [GraphNode(seed, "source")], [], 0)
  {
    assert Paths([GraphNode(seed, "source")]) == [seed];
  }

  /**
   * Breadth-first: the nodes are exactly the paths within maxDepth hops, each once, nearest first; the edges are exactly
   * the visible rows out of paths within maxDepth - 1 hops, each once, in the order of the nodes.
   */
  method Traverse(rows: seq<Link>, vault: string, seed: string, maxDepth: nat)
    returns (nodes: seq<GraphNode>, edges: seq<GraphEdge>)
    ensures SetOf(Paths(nodes)) == Within(rows, vault, seed, maxDepth) && NoRepeats(Paths(nodes))
    ensures NearestFirst(rows, vault, seed, Paths(nodes))
    ensures nodes != [] && nodes[0] == GraphNode(seed, "source") && KindsFromEdges(nodes, edges)
    ensures multiset(edges) == multiset(EdgesOf(RowsFrom(rows, vault, Followed(rows, vault, seed, maxDepth))))
    ensures EdgePerRow(rows, vault, edges, if maxDepth == 0 then {} else Within(rows, vault, seed, maxDepth - 1))
    ensures InNodeOrder(rows, vault, nodes, edges) && SourcesInOrder(Paths(nodes), edges)
  {
    hide NoRepeats, NearestFirst, KindsFromEdges, TargetsAmong, InNodeOrder, Within, Gained, RowsFrom, EdgePerRow, SourcesInOrder;
    var seen := {seed};
    var current := [seed];
    nodes, edges := [GraphNode(seed, "source")], [];
    AtStart(rows, vault, seed);
    ghost var start: nat := 0;
    var hop := 0;
    while hop < maxDepth && |current| > 0
      invariant hop <= maxDepth && AtHop(rows, vault, seed, hop, nodes, edges, start)
      invariant current == Paths(nodes)[start..] && seen == SetOf(Paths(nodes))
      decreases maxDepth - hop
    {
      ghost var nodes0, edges0 := nodes, edges;
      nodes, edges, seen, current := ExpandHop(rows, vault, current, nodes, edges, seen);
      HopAdvances(rows, vault, seed, hop, nodes0, edges0, start, nodes, edges, seen, current);
      start := |nodes0|;
      hop := hop + 1;
    }
    AtEnd(rows, vault, seed, hop, maxDepth, nodes, edges, start);
  }

  lemma FollowedNext(rows: seq<Link>, vault: string, seed: string, hop: nat)
    requires hop > 0
    ensures Followed(rows, vault, seed, hop) == Within(rows, vault, seed, hop - 1)
  {
  }

  lemma NoRepeatsPrefix(s: seq<string>, n: nat)
    requires NoRepeats(s) && n <= |s|
    ensures NoRepeats(s[..n])
  {
  }

  /** Every edge returned joins two of the nodes returned. */
  lemma {:induction false} EdgesJoinNodes(rows: seq<Link>, vault: string, seed: string, maxDepth: nat, e: GraphEdge)
    requires e in EdgesOf(RowsFrom(rows, vault, Followed(rows, vault, seed, maxDepth)))
    ensures e.source in Within(rows, vault, seed, maxDepth) && e.target in Within(rows, vault, seed, maxDepth)
  {
    var s := Followed(rows, vault, seed, maxDepth);
    var i :| 0 <= i < |RowsFrom(rows, vault, s)| && EdgesOf(RowsFrom(rows, vault, s))[i] == e;
    var r := RowsFrom(rows, vault, s)[i];
    RowsFromAre(rows, vault, s, r);
    assert r.target in Targets(rows, vault, s);
  }

  lemma {:induction false} RowsFromAre(rows: seq<Link>, vault: string, s: set<string>, r: Link)
    requires r in RowsFrom(rows, vault, s)
    ensures r in rows && Visible(r, vault) && r.source in s
  {
    var m := |rows| - 1;
    if r in RowsFrom(rows[..m], vault, s) { RowsFromAre(rows[..m], vault, s, r); }
  }

  /** The depth used: at most 5, less when a smaller positive number was given; `depth` is None when it did not parse. */
  function MaxDepth(depth: Option<int>): (d: nat)
    ensures 1 <= d <= 5 && (depth.Some? && depth.value > 0 ==> d <= depth.value) && (d < 5 ==> depth == Some(d))
  {
    if depth.Some? && 0 < depth.value < 5 then depth.value else 5
  }

  method GetLinkGraph(rows: seq<Link>, seedPath: string, depth: Option<int>, vault: string)
    returns (nodes: seq<GraphNode>, edges: seq<GraphEdge>)
    ensures SetOf(Paths(nodes)) == Within(rows, vault, seedPath, MaxDepth(depth)) && NoRepeats(Paths(nodes))
    ensures NearestFirst(rows, vault, seedPath, Paths(nodes)) && nodes != [] && nodes[0] == GraphNode(seedPath, "source")
    ensures EdgePerRow(rows, vault, edges, Within(rows, vault, seedPath, MaxDepth(depth) - 1))
    ensures forall e | e in edges :: e.source in SetOf(Paths(nodes)) && e.target in SetOf(Paths(nodes))
    ensures KindsFromEdges(nodes, edges) && InNodeOrder(rows, vault, nodes, edges) && SourcesInOrder(Paths(nodes), edges)
  {
    var maxDepth := 5;
    if depth.Some? && depth.value > 0 && depth.value < maxDepth {
      maxDepth := depth.value;
    }
    hide NoRepeats, NearestFirst, KindsFromEdges, InNodeOrder, RowsFrom, Within, Followed, EdgePerRow, SourcesInOrder;
    nodes, edges := Traverse(rows, vault, seedPath, maxDepth);
    FollowedNext(rows, vault, seedPath, maxDepth);
    forall e | e in edges ensures e.source in SetOf(Paths(nodes)) && e.target in SetOf(Paths(nodes)) {
      assert e in multiset(edges);
      EdgesJoinNodes(rows, vault, seedPath, maxDepth, e);
    }
  }
}
