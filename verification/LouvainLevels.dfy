/** Renumbering labels densely and collapsing the mutable graph, proved to compute `Hierarchy.Collapse` of its value. */
module LouvainLevels {
  import opened Sums
  import opened WeightedGraph
  import opened LocalMoving
  import opened Aggregation
  import opened Hierarchy
  import opened LouvainGraphs
  import opened LouvainPass

  /* ---- denseLabels ---- */

  lemma DenseNext(p: Labels, i: nat)
    requires i < |p|
    ensures Dense(p[..i + 1]).0 == Dense(p[..i]).0
      + [if p[i] in p[..i] then Dense(p[..i]).0[FirstIndex(p[..i], p[i])] else Dense(p[..i]).1]
    ensures Dense(p[..i + 1]).1 == Dense(p[..i]).1 + if p[i] in p[..i] then 0 else 1
  {
    assert p[..i + 1][..i] == p[..i] && p[..i + 1][i] == p[i];
  }

  /** The remap table and the output after the first i labels. */
  ghost predicate Remapped(p: Labels, i: nat, remap: map<nat, nat>, out: Labels, next: nat) {
    && i <= |p| && (out, next) == Dense(p[..i])
    && (forall l :: l in remap <==> l in p[..i])
    && (forall j | 0 <= j < i :: p[j] in remap && remap[p[j]] == out[j])
  }

  lemma RemapNext(p: Labels, i: nat, remap: map<nat, nat>, out: Labels, next: nat)
    requires Remapped(p, i, remap, out, next) && i < |p|
    ensures if p[i] in remap then Remapped(p, i + 1, remap, out + [remap[p[i]]], next)
      else Remapped(p, i + 1, remap[p[i] := next], out + [next], next + 1)
  {
    hide Dense;
    DenseNext(p, i);
    var l := p[i];
    if l in remap {
      var j := FirstIndex(p[..i], l);
      assert p[..i][j] == l && remap[l] == out[j];
    }
    assert p[..i + 1] == p[..i] + [l];
  }

  lemma NothingRemapped(p: Labels)
    ensures Remapped(p, 0, map[], [], 0)
  {
  }

  method DenseLabels(lab: array<nat>) returns (out: array<nat>, next: nat)
    ensures fresh(out) && (out[..], next) == Dense(lab[..])
  {
    hide Dense;
    ghost var p := lab[..];
    var remap: map<nat, nat> := map[];
    out := new nat[lab.Length];
    next := 0;
    NothingRemapped(p);
    assert out[..0] == [];
    for i := 0 to lab.Length
      invariant lab[..] == p && Remapped(p, i, remap, out[..i], next)
    {
      hide Remapped;
      RemapNext(p, i, remap, out[..i], next);
      var l := lab[i];
      var d := next;
      if l in remap {
        d := remap[l];
      } else {
        remap := remap[l := d];
        next := next + 1;
      }
      out[i] := d;
      assert out[..i + 1] == out[..i] + [d];
    }
    assert out[..] == out[..lab.Length] && p == p[..lab.Length];
  }

  /* ---- aggregate ---- */

  /** How far the collapsing loops are: links of nodes below u, the links of u to nodes in d, and the first few loops. */
  datatype Stage = Stage(u: nat, d: set<nat>, loops: nat)

  ghost predicate Reached(s: Stage, x: int, y: int) {
    0 <= x && 0 <= y && (x < s.u || y < s.u || (x == s.u && y as nat in s.d && x < y) || (y == s.u && x as nat in s.d && y < x))
  }

  /** The part of the adjacency matrix that has been collapsed. */
  ghost function Part(g: Graph, s: Stage): (int, int) -> int {
    (x, y) => if x == y then (if 0 <= x < s.loops then 2 * Loop(g, x) else 0) else if Reached(s, x, y) then Weight(g, x, y) else 0
  }

  ghost predicate PartTouch(g: Graph, s: Stage, p: Labels, c: int, d: int) {
    exists x, y :: Linked(g, x, y) && Reached(s, x, y) && LabelAt(p)(x) == c && LabelAt(p)(y) == d
  }

  ghost function WithoutLoops(h: Graph): Graph {
    h.(loops := seq(|h.loops|, i => 0))
  }

  /** h is the collapse of the part of g reached so far; its self-loops are not yet in its degrees. */
  ghost predicate Collapsing(g: Network, p: Labels, k: nat, s: Stage, h: Graph) {
    && |p| == g.n && Onto(p, k)
    && h.n == k && |h.loops| == k && WellFormed(WithoutLoops(h))
    && (forall c: nat, d: nat | c < k && d < k && c != d :: Weight(h, c, d) == Blocks(Part(g, s), p)(c, d))
    && (forall c: nat | c < k :: 2 * h.loops[c] == Blocks(Part(g, s), p)(c, c))
    && (forall c, d | c != d :: Linked(h, c, d) <==> PartTouch(g, s, p, c, d))
  }

  /** Changing one entry of a matrix changes one block sum. */
  lemma BlocksDelta(a: (int, int) -> int, b: (int, int) -> int, p: Labels, x: nat, y: nat, e: int, c: int, d: int)
    requires x < |p| && y < |p|
    requires forall i, j | 0 <= i < |p| && 0 <= j < |p| && (i != x || j != y) :: b(i, j) == a(i, j)
    requires b(x, y) == a(x, y) + e
    ensures Blocks(b, p)(c, d) == Blocks(a, p)(c, d) + if p[x] == c && p[y] == d then e else 0
  {
    assert LabelAt(p)(x) == p[x] && LabelAt(p)(y) == p[y];
    Sum2Delta(|p|, |p|, InBlock(a, p, c, d), InBlock(b, p, c, d), x, y, if p[x] == c && p[y] == d then e else 0);
  }

  /** Reaching one more link adds its weight to the blocks of its ends, both ways. */
  lemma BlocksOfLink(g: Network, p: Labels, u: nat, done: set<nat>, v: nat, c: int, d: int)
    requires |p| == g.n && u < v < g.n && v !in done
    ensures var w := Weight(g, u, v);
      Blocks(Part(g, Stage(u, done + {v}, u + 1)), p)(c, d) == Blocks(Part(g, Stage(u, done, u + 1)), p)(c, d)
        + (if c == p[u] && d == p[v] then w else 0) + (if c == p[v] && d == p[u] then w else 0)
  {
    var before, after := Part(g, Stage(u, done, u + 1)), Part(g, Stage(u, done + {v}, u + 1));
    var w := Weight(g, u, v);
    assert Weight(g, v, u) == w;
    var half := (x, y) => if x == u && y == v then before(x, y) + w else before(x, y);
    BlocksDelta(before, half, p, u, v, w, c, d);
    BlocksDelta(half, after, p, v, u, w, c, d);
  }

  lemma TouchOfLink(g: Network, p: Labels, u: nat, done: set<nat>, v: nat, c: int, d: int)
    requires |p| == g.n && u < v < g.n && v !in done && Linked(g, u, v)
    ensures PartTouch(g, Stage(u, done + {v}, u + 1), p, c, d) <==>
      PartTouch(g, Stage(u, done, u + 1), p, c, d) || (c == p[u] && d == p[v]) || (c == p[v] && d == p[u])
  {
    var s, t := Stage(u, done, u + 1), Stage(u, done + {v}, u + 1);
    forall x, y ensures Reached(t, x, y) <==> Reached(s, x, y) || (x == u && y == v) || (x == v && y == u) {}
    assert LabelAt(p)(u) == p[u] && LabelAt(p)(v) == p[v];
    assert Linked(g, v, u);
    assert Reached(t, u, v) && Reached(t, v, u);
  }

  lemma LinkEffect(g: Network, p: Labels, u: nat, done: set<nat>, v: nat)
    requires |p| == g.n && u < v < g.n && v !in done && Linked(g, u, v)
    ensures var s, t, w := Stage(u, done, u + 1), Stage(u, done + {v}, u + 1), Weight(g, u, v);
      && (forall c, d ::
        Blocks(Part(g, t), p)(c, d) ==
        Blocks(Part(g, s), p)(c, d) + (if c == p[u] && d == p[v] then w else 0) + (if c == p[v] && d == p[u] then w else 0))
      && (forall c, d :: PartTouch(g, t, p, c, d) <==>
        PartTouch(g, s, p, c, d) || (c == p[u] && d == p[v]) || (c == p[v] && d == p[u]))
  {
    hide Blocks, Part, PartTouch;
    var s, t, w := Stage(u, done, u + 1), Stage(u, done + {v}, u + 1), Weight(g, u, v);
    forall c, d ensures Blocks(Part(g, t), p)(c, d) == Blocks(Part(g, s), p)(c, d)
      + (if c == p[u] && d == p[v] then w else 0) + (if c == p[v] && d == p[u] then w else 0) {
      BlocksOfLink(g, p, u, done, v, c, d);
    }
    forall c, d ensures PartTouch(g, t, p, c, d) <==>
      PartTouch(g, s, p, c, d) || (c == p[u] && d == p[v]) || (c == p[v] && d == p[u]) {
      TouchOfLink(g, p, u, done, v, c, d);
    }
  }

  lemma InnerLinkStep(g: Network, p: Labels, k: nat, u: nat, done: set<nat>, v: nat, h: Graph)
    requires Collapsing(g, p, k, Stage(u, done, u + 1), h) && Linked(g, u, v) && u < v < g.n && v !in done && p[u] == p[v]
    ensures Collapsing(g, p, k, Stage(u, done + {v}, u + 1), WithLoop(h, p[u], g.adj[u][v]))
  {
    hide Blocks, Part, PartTouch, WellFormed;
    var h' := WithLoop(h, p[u], g.adj[u][v]);
    assert WithoutLoops(h') == WithoutLoops(h);
    LinkEffect(g, p, u, done, v);
    assert forall c, d :: Linked(h', c, d) <==> Linked(h, c, d);
  }

  lemma CrossLinkStep(g: Network, p: Labels, k: nat, u: nat, done: set<nat>, v: nat, h: Graph)
    requires Collapsing(g, p, k, Stage(u, done, u + 1), h) && Linked(g, u, v) && u < v < g.n && v !in done && p[u] != p[v]
    ensures |h.adj| == |h.degree| == k
    ensures Collapsing(g, p, k, Stage(u, done + {v}, u + 1), WithEdge(h, p[u], p[v], g.adj[u][v]))
  {
    hide Blocks, Part, PartTouch;
    var w := g.adj[u][v];
    var h' := WithEdge(h, p[u], p[v], w);
    assert WithoutLoops(h') == WithEdge(WithoutLoops(h), p[u], p[v], w);
    WithEdgeWellFormed(WithoutLoops(h), p[u], p[v], w);
    forall c, d
      ensures Linked(h', c, d) <==> Linked(h, c, d) || (c == p[u] && d == p[v]) || (c == p[v] && d == p[u])
      ensures c != d ==>
        Weight(h', c, d) ==
        Weight(h, c, d) + (if c == p[u] && d == p[v] then w else 0) + (if c == p[v] && d == p[u] then w else 0)
    {
      WithEdgeAdjacency(WithoutLoops(h), p[u], p[v], w, c, d);
    }
    LinkEffect(g, p, u, done, v);
  }

  /** A neighbour with a smaller index was reached from its own side. */
  lemma SkipStep(g: Network, p: Labels, k: nat, u: nat, done: set<nat>, v: nat, h: Graph)
    requires Collapsing(g, p, k, Stage(u, done, u + 1), h) && v <= u
    ensures Collapsing(g, p, k, Stage(u, done + {v}, u + 1), h)
  {
    SameParts(g, p, k, Stage(u, done, u + 1), Stage(u, done + {v}, u + 1), h);
  }

  lemma SameParts(g: Network, p: Labels, k: nat, s: Stage, t: Stage, h: Graph)
    requires Collapsing(g, p, k, s, h) && s.loops == t.loops
    requires forall x, y | Linked(g, x, y) :: Reached(s, x, y) <==> Reached(t, x, y)
    ensures Collapsing(g, p, k, t, h)
  {
    forall c, d ensures Blocks(Part(g, s), p)(c, d) == Blocks(Part(g, t), p)(c, d) {
      forall x, y | 0 <= x < g.n && 0 <= y < g.n
        ensures InBlock(Part(g, s), p, c, d)(x, y) == InBlock(Part(g, t), p, c, d)(x, y) {
        assert !Linked(g, x, y) ==> Weight(g, x, y) == 0;
        assert Part(g, s)(x, y) == Part(g, t)(x, y);
      }
      Sum2Ext(g.n, g.n, InBlock(Part(g, s), p, c, d), InBlock(Part(g, t), p, c, d));
    }
    forall c, d ensures PartTouch(g, s, p, c, d) <==> PartTouch(g, t, p, c, d) {}
  }

  lemma LoopStep(g: Network, p: Labels, k: nat, u: nat, h: Graph)
    requires Collapsing(g, p, k, Stage(u, {}, u), h) && u < g.n
    ensures Collapsing(g, p, k, Stage(u, {}, u + 1), WithLoop(h, p[u], Loop(g, u)))
  {
    hide Blocks, WellFormed;
    var s, t := Stage(u, {}, u), Stage(u, {}, u + 1);
    var h' := WithLoop(h, p[u], Loop(g, u));
    assert WithoutLoops(h') == WithoutLoops(h);
    forall c, d ensures Blocks(Part(g, t), p)(c, d)
      == Blocks(Part(g, s), p)(c, d) + if p[u] == c && p[u] == d then 2 * Loop(g, u) else 0 {
      assert forall x, y :: Reached(s, x, y) <==> Reached(t, x, y);
      BlocksDelta(Part(g, s), Part(g, t), p, u, u, 2 * Loop(g, u), c, d);
    }
    assert forall c, d :: Linked(h', c, d) <==> Linked(h, c, d);
    forall c, d ensures PartTouch(g, s, p, c, d) <==> PartTouch(g, t, p, c, d) {
      assert forall x, y :: Reached(s, x, y) <==> Reached(t, x, y);
    }
  }

  lemma NothingCollapsed(g: Network, p: Labels, k: nat)
    requires Collapsible(g, p, k)
    ensures Collapsing(g, p, k, Stage(0, {}, 0), Edgeless(k))
  {
    EdgelessWellFormed(k);
    assert WithoutLoops(Edgeless(k)) == Edgeless(k);
    forall c, d ensures Blocks(Part(g, Stage(0, {}, 0)), p)(c, d) == 0 {
      Sum2Zero(g.n, g.n, InBlock(Part(g, Stage(0, {}, 0)), p, c, d));
    }
  }

  lemma RowEnds(g: Network, p: Labels, k: nat, u: nat, h: Graph)
    requires u < g.n && Collapsing(g, p, k, Stage(u, g.adj[u].Keys, u + 1), h)
    ensures Collapsing(g, p, k, Stage(u + 1, {}, u + 1), h)
  {
    var s, t := Stage(u, g.adj[u].Keys, u + 1), Stage(u + 1, {}, u + 1);
    forall x, y | Linked(g, x, y) ensures Reached(s, x, y) <==> Reached(t, x, y) {
      assert Linked(g, y, x);
    }
    SameParts(g, p, k, s, t, h);
  }

  /** A network is determined by its links and self-loops. */
  lemma SameLinksSameNetwork(g: Network, h: Network)
    requires g.n == h.n && g.adj == h.adj && g.loops == h.loops
    ensures g == h
  {
    forall u | 0 <= u < g.n ensures g.degree[u] == h.degree[u] {
      forall v | 0 <= v < g.n ensures Row(Adjacency(g), u)(v) == Row(Adjacency(h), u)(v) {
        assert Weight(g, u, v) == Weight(h, u, v) && Loop(g, u) == Loop(h, u);
        assert Adjacency(g)(u, v) == Adjacency(h)(u, v);
      }
      SumExt(g.n, Row(Adjacency(g), u), Row(Adjacency(h), u));
    }
    SumExt(g.n, Deg(g), Deg(h));
  }

  /** With every link reached and the self-loops in the degrees, the new graph is the collapse. */
  lemma AllCollapsed(g: Network, p: Labels, k: nat, h: Graph, h': Network)
    requires Collapsing(g, p, k, Stage(g.n, {}, g.n), h) && h'.n == k && h'.adj == h.adj && h'.loops == h.loops
    ensures h' == Collapse(g, p, k)
  {
    hide Blocks, Collapse, CollapsedGraph;
    var full := CollapsedGraph(g, p, k);
    forall c: nat | c < k ensures h.loops[c] == full.loops[c] && h.adj[c] == full.adj[c] {
      WholeBlock(g, p, c, c);
      NeighboursCollapsed(g, p, k, h, c);
    }
    assert h'.loops == full.loops && h'.adj == full.adj;
    SameLinksSameNetwork(h', Collapse(g, p, k));
  }

  lemma NeighboursCollapsed(g: Network, p: Labels, k: nat, h: Graph, c: nat)
    requires Collapsing(g, p, k, Stage(g.n, {}, g.n), h) && c < k
    ensures |h.adj| == k && h.adj[c] == NeighboursOf(g, p, k, c)
  {
    hide Blocks;
    var s := Stage(g.n, {}, g.n);
    assert forall x, y :: Linked(g, x, y) ==> Reached(s, x, y);
    forall d: nat ensures d in h.adj[c] <==> d in NeighboursOf(g, p, k, c) {
      assert d in h.adj[c] <==> Linked(h, c, d);
      assert Linked(WithoutLoops(h), c, d) <==> Linked(h, c, d);
      assert PartTouch(g, s, p, c, d) <==> Touch(g, p, c, d);
    }
    forall d: nat | d in h.adj[c] ensures h.adj[c][d] == NeighboursOf(g, p, k, c)[d] {
      WholeBlock(g, p, c, d);
      assert Weight(h, c, d) == h.adj[c][d];
    }
  }

  lemma WholeBlock(g: Network, p: Labels, c: int, d: int)
    requires |p| == g.n
    ensures Blocks(Part(g, Stage(g.n, {}, g.n)), p)(c, d) == Blocks(Adjacency(g), p)(c, d)
  {
    var s := Stage(g.n, {}, g.n);
    forall x, y | 0 <= x < g.n && 0 <= y < g.n
      ensures InBlock(Part(g, s), p, c, d)(x, y) == InBlock(Adjacency(g), p, c, d)(x, y) {
      assert Part(g, s)(x, y) == Adjacency(g)(x, y);
    }
    Sum2Ext(g.n, g.n, InBlock(Part(g, s), p, c, d), InBlock(Adjacency(g), p, c, d));
  }

  /** h with the self-loops from c on left out. */
  ghost function Folded(h: Graph, c: nat): Graph
    requires c <= |h.loops|
  {
    h.(loops := h.loops[..c] + seq(|h.loops| - c, i => 0))
  }

  lemma CollapsingShape(g: Network, p: Labels, k: nat, s: Stage, h: Graph)
    requires Collapsing(g, p, k, s, h)
    ensures Collapsible(g, p, k) && h.n == k && WellFormed(WithoutLoops(h))
  {
  }

  /** What folding the self-loop of c does to a graph. */
  ghost function FoldedIn(h: Graph, c: nat): Graph
    requires c < |h.loops| && c < |h.degree|
  {
    h.(degree := h.degree[c := h.degree[c] + 2 * h.loops[c]], m2 := h.m2 + 2 * h.loops[c])
  }

  lemma FoldStep(h: Graph, c: nat)
    requires c < |h.loops| == h.n && WellFormed(Folded(h, c))
    ensures |h.degree| == h.n && WellFormed(Folded(FoldedIn(h, c), c + 1))
  {
    WithEdgeWellFormed(Folded(h, c), c, c, h.loops[c]);
    assert Folded(FoldedIn(h, c), c + 1) == WithEdge(Folded(h, c), c, c, h.loops[c]) by {
      assert Folded(h, c + 1).loops == Folded(h, c).loops[c := h.loops[c]];
    }
  }

  /** Folds the self-loops into degrees and total weight, once each. */
  method FoldSelfLoops(ng: LouvainGraph)
    requires ng.Valid() && WellFormed(WithoutLoops(ng.View()))
    modifies ng`m2, ng.degree
    ensures ng.Valid() && WellFormed(ng.View())
    ensures ng.View().adj == old(ng.View()).adj && ng.View().loops == old(ng.View()).loops
  {
    hide WellFormed;
    assert Folded(ng.View(), 0) == WithoutLoops(ng.View());
    for c := 0 to ng.n
      invariant ng.adj[..] == old(ng.adj[..]) && ng.selfLoop[..] == old(ng.selfLoop[..])
      invariant WellFormed(Folded(ng.View(), c))
    {
      ghost var h := ng.View();
      FoldStep(h, c);
      if ng.selfLoop[c] > 0 {
        ng.degree[c] := ng.degree[c] + 2 * ng.selfLoop[c];
        ng.m2 := ng.m2 + 2 * ng.selfLoop[c];
      }
      assert ng.View() == FoldedIn(h, c);
    }
    assert Folded(ng.View(), ng.n) == ng.View();
  }

  ghost predicate Apart(lg: LouvainGraph, dense: array<nat>, ng: LouvainGraph) {
    {lg, lg.adj, lg.selfLoop, lg.degree, dense} !! {ng, ng.adj, ng.selfLoop, ng.degree}
  }

  /** Collapses the link between u and v, from the side of the smaller index. */
  method AggregateLink(lg: LouvainGraph, dense: array<nat>, k: nat, ng: LouvainGraph, u: nat, v: nat,
                       ghost g: Network, ghost p: Labels, ghost done: set<nat>)
    requires Reads(lg, dense, g, p) && u < g.n && v in g.adj[u] && v !in done && ng.Valid() && Apart(lg, dense, ng)
    requires Collapsing(g, p, k, Stage(u, done, u + 1), ng.View())
    modifies ng`m2, ng.adj, ng.selfLoop, ng.degree
    ensures Reads(lg, dense, g, p) && ng.Valid()
    ensures Collapsing(g, p, k, Stage(u, done + {v}, u + 1), ng.View())
  {
    hide Collapsing;
    assert Linked(g, u, v);
    CollapsingShape(g, p, k, Stage(u, done, u + 1), ng.View());
    var cu, w := dense[u], lg.adj[u][v];
    if u < v {
      var cv := dense[v];
      if cu == cv {
        InnerLinkStep(g, p, k, u, done, v, ng.View());
        ng.AddToSelfLoop(cu, w);
      } else {
        CrossLinkStep(g, p, k, u, done, v, ng.View());
        ng.AddEdge(cu, cv, w);
      }
    } else {
      SkipStep(g, p, k, u, done, v, ng.View());
    }
  }

  /** Collapses the self-loop and the links of u, in whatever order its neighbours come. */
  method AggregateNode(lg: LouvainGraph, dense: array<nat>, k: nat, ng: LouvainGraph, u: nat, ghost g: Network, ghost p: Labels)
    requires Reads(lg, dense, g, p) && u < g.n && ng.Valid() && Apart(lg, dense, ng)
    requires Collapsing(g, p, k, Stage(u, {}, u), ng.View())
    modifies ng`m2, ng.adj, ng.selfLoop, ng.degree
    ensures Reads(lg, dense, g, p) && ng.Valid()
    ensures Collapsing(g, p, k, Stage(u + 1, {}, u + 1), ng.View())
  {
    hide Collapsing;
    CollapsingShape(g, p, k, Stage(u, {}, u), ng.View());
    LoopStep(g, p, k, u, ng.View());
    ng.AddToSelfLoop(dense[u], lg.selfLoop[u]);
    var todo := lg.adj[u].Keys;
    ghost var done: set<nat> := {};
    while todo != {}
      invariant Reads(lg, dense, g, p) && ng.Valid()
      invariant todo + done == g.adj[u].Keys && todo !! done
      invariant Collapsing(g, p, k, Stage(u, done, u + 1), ng.View())
      decreases |todo|
    {
      var v :| v in todo;
      AggregateLink(lg, dense, k, ng, u, v, g, p, done);
      todo, done := todo - {v}, done + {v};
    }
    assert done == g.adj[u].Keys;
    RowEnds(g, p, k, u, ng.View());
  }

  /** Collapses every node of g into the new graph. */
  method AggregateNodes(lg: LouvainGraph, dense: array<nat>, k: nat, ng: LouvainGraph, ghost g: Network, ghost p: Labels)
    requires Reads(lg, dense, g, p) && ng.Valid() && Apart(lg, dense, ng)
    requires Collapsing(g, p, k, Stage(0, {}, 0), ng.View())
    modifies ng`m2, ng.adj, ng.selfLoop, ng.degree
    ensures Reads(lg, dense, g, p) && ng.Valid()
    ensures Collapsing(g, p, k, Stage(g.n, {}, g.n), ng.View())
  {
    hide Collapsing;
    for u := 0 to lg.n
      invariant Reads(lg, dense, g, p) && ng.Valid()
      invariant Collapsing(g, p, k, Stage(u, {}, u), ng.View())
    {
      AggregateNode(lg, dense, k, ng, u, g, p);
    }
  }

  /** Collapses each community to one node. */
  method Aggregate(lg: LouvainGraph, dense: array<nat>, k: nat) returns (ng: LouvainGraph)
    requires lg.Valid() && WellFormed(lg.View()) && Collapsible(lg.View(), dense[..], k)
    ensures fresh(ng) && fresh(ng.adj) && fresh(ng.selfLoop) && fresh(ng.degree) && ng.Valid()
    ensures ng.View() == Collapse(lg.View(), dense[..], k)
  {
    hide Collapsing, Collapse, CollapsedGraph, WithoutLoops, Edgeless, WellFormed;
    ghost var g: Network, p: Labels := lg.View(), dense[..];
    ng := new LouvainGraph(k);
    NothingCollapsed(g, p, k);
    AggregateNodes(lg, dense, k, ng, g, p);
    ghost var collapsed := ng.View();
    CollapsingShape(g, p, k, Stage(g.n, {}, g.n), collapsed);
    FoldSelfLoops(ng);
    AllCollapsed(g, p, k, collapsed, ng.View());
  }
}
