/** The mutable graph that Louvain builds and reads. */
module LouvainGraphs {
  import opened Sums
  import opened WeightedGraph

  /** The value of a graph without edges. */
  ghost function Edgeless(n: nat): Graph {
    Graph(n, seq(n, i => map[]), seq(n, i => 0), seq(n, i => 0), 0)
  }

  /** The neighbour map of u after w more is put on its link to v. */
  ghost function Linking(g: Graph, u: nat, v: nat, w: nat): map<nat, nat>
    requires u < |g.adj|
  {
    g.adj[u][v := Weight(g, u, v) + w]
  }

  /** g with an edge of weight w added between u and v; a self-edge counts twice in the degree. */
  ghost function WithEdge(g: Graph, u: nat, v: nat, w: nat): Graph
    requires |g.adj| == |g.loops| == |g.degree| == g.n && u < g.n && v < g.n
  {
    if u == v then
      g.(loops := g.loops[u := g.loops[u] + w], degree := g.degree[u := g.degree[u] + 2 * w], m2 := g.m2 + 2 * w)
    else
      g.(adj := g.adj[u := Linking(g, u, v, w)][v := Linking(g, v, u, w)],
         degree := g.degree[u := g.degree[u] + w][v := g.degree[v] + w], m2 := g.m2 + 2 * w)
  }

  /** The effect of a link inside a community: its weight goes to the self-loop. */
  ghost function WithLoop(h: Graph, c: nat, w: nat): Graph
    requires c < |h.loops|
  {
    h.(loops := h.loops[c := h.loops[c] + w])
  }

  lemma EdgelessWellFormed(n: nat)
    ensures WellFormed(Edgeless(n))
  {
    forall u | 0 <= u < n ensures Sum(n, Row(Adjacency(Edgeless(n)), u)) == 0 {
      SumZero(n, Row(Adjacency(Edgeless(n)), u));
    }
    SumZero(n, Deg(Edgeless(n)));
  }

  lemma WithEdgeWeight(g: Graph, u: nat, v: nat, w: nat, x: int, y: int)
    requires Shaped(g) && u < g.n && v < g.n && u != v
    ensures var h := WithEdge(g, u, v, w);
      && (Linked(h, x, y) <==> Linked(g, x, y) || (x == u && y == v) || (x == v && y == u))
      && Weight(h, x, y) == Weight(g, x, y) + if (x == u && y == v) || (x == v && y == u) then w else 0
  {
    var h := WithEdge(g, u, v, w);
    assert h.adj[u] == Linking(g, u, v, w) && h.adj[v] == Linking(g, v, u, w);
    assert 0 <= x < g.n && x != u && x != v ==> h.adj[x] == g.adj[x];
  }

  /** An added edge adds w at both ends of the adjacency matrix and nowhere else. */
  lemma WithEdgeAdjacency(g: Graph, u: nat, v: nat, w: nat, x: int, y: int)
    requires Shaped(g) && u < g.n && v < g.n
    ensures Adjacency(WithEdge(g, u, v, w))(x, y)
      == Adjacency(g)(x, y) + (if x == u && y == v then w else 0) + (if x == v && y == u then w else 0)
    ensures Linked(WithEdge(g, u, v, w), x, y) <==> Linked(g, x, y) || (u != v && ((x == u && y == v) || (x == v && y == u)))
  {
    var h := WithEdge(g, u, v, w);
    if u != v {
      WithEdgeWeight(g, u, v, w, x, y);
      assert h.loops == g.loops;
    } else {
      assert h.adj == g.adj;
      assert Weight(h, x, y) == Weight(g, x, y);
    }
  }

  lemma WithEdgeShaped(g: Graph, u: nat, v: nat, w: nat)
    requires Shaped(g) && u < g.n && v < g.n
    ensures Shaped(WithEdge(g, u, v, w))
  {
    var h := WithEdge(g, u, v, w);
    forall x, y ensures Linked(h, x, y) ==> y < h.n && y != x && Linked(h, y, x) {
      WithEdgeAdjacency(g, u, v, w, x, y);
      WithEdgeAdjacency(g, u, v, w, y, x);
    }
    forall x, y ensures Weight(h, x, y) == Weight(h, y, x) {
      WithEdgeAdjacency(g, u, v, w, x, y);
      WithEdgeAdjacency(g, u, v, w, y, x);
      assert Weight(g, x, y) == Weight(g, y, x);
      assert x != y ==> Adjacency(h)(x, y) == Weight(h, x, y) && Adjacency(g)(x, y) == Weight(g, x, y);
    }
  }

  /** Adding an edge keeps degrees the row sums and m2 their total. */
  lemma WithEdgeWellFormed(g: Graph, u: nat, v: nat, w: nat)
    requires WellFormed(g) && u < g.n && v < g.n
    ensures WellFormed(WithEdge(g, u, v, w))
  {
    var h, n := WithEdge(g, u, v, w), g.n;
    WithEdgeShaped(g, u, v, w);
    forall x: nat | x < n ensures h.degree[x] == Sum(n, Row(Adjacency(h), x)) {
      forall y | 0 <= y < n ensures Row(Adjacency(h), x)(y)
        == Row(Adjacency(g), x)(y) + (if x == u && y == v then w else 0) + (if x == v && y == u then w else 0) {
        WithEdgeAdjacency(g, u, v, w, x, y);
      }
      if x == u {
        SumDelta(n, Row(Adjacency(g), x), Row(Adjacency(h), x), v, if u == v then 2 * w else w);
      } else if x == v {
        SumDelta(n, Row(Adjacency(g), x), Row(Adjacency(h), x), u, w);
      } else {
        SumExt(n, Row(Adjacency(g), x), Row(Adjacency(h), x));
      }
    }
    WithEdgeTotal(g, u, v, w);
  }

  lemma WithEdgeTotal(g: Graph, u: nat, v: nat, w: nat)
    requires |g.adj| == |g.loops| == |g.degree| == g.n && u < g.n && v < g.n
    ensures Sum(g.n, Deg(WithEdge(g, u, v, w))) == Sum(g.n, Deg(g)) + 2 * w
  {
    var h, n := WithEdge(g, u, v, w), g.n;
    if u == v {
      SumDelta(n, Deg(g), Deg(h), u, 2 * w);
    } else {
      var half := x => if x == u then Deg(g)(u) + w else Deg(g)(x);
      SumDelta(n, Deg(g), half, u, w);
      SumDelta(n, half, Deg(h), v, w);
    }
  }

  class LouvainGraph {
    const n: nat
    const adj: array<map<nat, nat>>
    const selfLoop: array<nat>
    const degree: array<nat>
    var m2: nat

    ghost predicate Valid()
      reads this
    {
      adj.Length == selfLoop.Length == degree.Length == n && selfLoop != degree
    }

    ghost function View(): Graph
      reads this, adj, selfLoop, degree
    {
      Graph(n, adj[..], selfLoop[..], degree[..], m2)
    }

    constructor (n: nat)
      ensures Valid() && fresh(adj) && fresh(selfLoop) && fresh(degree)
      ensures View() == Edgeless(n)
    {
      this.n := n;
      adj := new map<nat, nat>[n](i => map[]);
      selfLoop := new nat[n](i => 0);
      degree := new nat[n](i => 0);
      m2 := 0;
    }

    /** Puts weight on a self-loop without counting it in degrees yet, as aggregation does. */
    method AddToSelfLoop(c: nat, w: nat)
      requires Valid() && c < n
      modifies selfLoop
      ensures Valid() && View() == WithLoop(old(View()), c, w)
    {
      selfLoop[c] := selfLoop[c] + w;
    }

    method AddEdge(u: nat, v: nat, w: nat)
      requires Valid() && u < n && v < n
      modifies this`m2, adj, selfLoop, degree
      ensures Valid() && View() == WithEdge(old(View()), u, v, w)
    {
      if u == v {
        selfLoop[u] := selfLoop[u] + w;
        degree[u] := degree[u] + 2 * w;
        m2 := m2 + 2 * w;
        return;
      }
      adj[u] := adj[u][v := (if v in adj[u] then adj[u][v] else 0) + w];
      adj[v] := adj[v][u := (if u in adj[v] then adj[v][u] else 0) + w];
      degree[u] := degree[u] + w;
      degree[v] := degree[v] + w;
      m2 := m2 + 2 * w;
    }
  }
}
